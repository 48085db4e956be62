# haoqiyou route and event core, in Dafny

haoqiyou publishes group bike rides (Strava clubs, WeChat groups, news) on a
map page. This project models the parts of the repository that transform
data and do no I/O, and proves properties of them:

- **The encoded-polyline codec** (Google's Encoded Polyline Algorithm Format). This covers:
  - the reference encoder of `serialize_gpx.py`;
  - the decoder of `utils/route_utils.py`;
  - the three copies of the encoder carried by the route extractors;
  - the 32-bit browser decoder `decodePolyline` of `map_scriptrs.js`.

  Everything is modelled on integer-scaled coordinates. The headline results:
  - `Polyline.IntRoundTrip` and `Polyline.RoundTrip`: decoding an encoding gives back the scaled points;
  - `MapScript.AgreesWithPython`: on every encoder output whose zig-zagged deltas fit 31 bits, the browser decoder returns what the Python decoder returns.
- **The route loop classifier** of `utils/route_utils.py`. It chains these steps:
  - an optional base64 unwrap (section 4 of RFC 4648, then strict UTF-8);
  - the decode;
  - a filter of consecutive near-duplicate points;
  - a closure test on the haversine distance;
  - the sign of the shoelace area.
- **The browser page logic** of `dynamic-loader.js`:
  - marker shifting for markers that share a spot (the `Marker` class, whose `shift` field is updated in place);
  - the upcoming / planning / past split;
  - the region label;
  - the link and label resolvers;
  - HTML escaping.
- **The coordinate extractors** of `utils/extract_route_from_ridewithgps.py`, `extract_events_from_json.py` and `extract_events_from_url.py`:
  - lat/lon coercion with range checks and swap;
  - key guessing;
  - consecutive-duplicate removal;
  - breadth-first searches over a JSON tree;
  - point-dict encoding;
  - the SVG pixel mappings.
- **Event-record normalisation**:
  - Mongo Extended JSON `$numberLong` / `$date` wrapping and unwrapping;
  - the recursive `clean_dict`;
  - the dehydrate and rehydrate field rules;
  - the merge of fetched Strava events into the stored list, keyed by Strava id, URL or `_id`;
  - the cleanup partition of old events.

JSON payloads and event documents are the tree datatype `PyValue.Value`. A dict is a sequence of key/value entries in insertion order with distinct keys. Coordinates are `real`. Library behaviour the code relies on but does not define comes in as function-typed parameters:
- parsing a float or a date;
- `round`;
- the haversine distance;
- JavaScript's `Number()` and `String()`.

Module layout, one module per file:
- `wrappers`, `text`, `bits`, `seqs`, `pyvalue`: shared vocabulary and library behaviour;
- `polyline`, `map_script`, `base64`, `utf8`, `route_utils`: the codec and the classifier;
- `dynamic_loader`: the page script;
- `coordinates`, `ridewithgps`, `json_route`, `url_extract`: the extractors;
- `extended_json`, `event_document`, `event_storage`, `strava_events`, `cleanup`: the event records.

Where the code and its description disagree, the model follows the code. Six places where the behaviour is surprising but modelled as written:
- The classifier accepts any base64 text that decodes to UTF-8 as the polyline. It does not check that the text is a polyline.
- `_encode_from_points` drops a point whose `latitude` is 0.0, since 0.0 is falsy and the `or` falls through to a missing `lat`.
- The `ensure_list_of_strings` of `utils/event_storage.py` keeps a zero item. The copies in `update_strava_events.py` and `dehydrate_events.py` drop it.
- `deriveEventArea` labels a point on the shared edge (latitude 35) as NorCal.
- `assignMarkerShifts` gives a marker that is listed twice the shift of its last position.
- `clean_dict` drops `None` and "" items from a list but does not clean the dicts inside it: `{"a": [{"b": None}]}` keeps its `None`.

## Model

| member | source | states |
|---|---|---|
| Polyline.ZigZag | serialize_gpx.py:78 | the zig-zag value is a natural number whose parity carries the sign: 2v for v >= 0, -2v-1 for v < 0 |
| Polyline.ZigZagRoundTrip | serialize_gpx.py:78 | un-zig-zagging the encoder's zig-zag gives the value back |
| Polyline.UnZigZagRoundTrip | utils/route_utils.py:54 | the decoder's un-zig-zag at line 54 is a bijection: zig-zagging its result gives back the natural number |
| Polyline.ChunksShape | serialize_gpx.py:79-84 | every character but the last is in [95, 126] and the last in [63, 94], so encodings split unambiguously; there are n characters with 32^(n-1) <= z < 32^n, one when z < 32 |
| Polyline.EncodeNumber | serialize_gpx.py:77-84 | the `while value >= 0x20` loop writes exactly the 5-bit group characters of the zig-zag value, least significant group first |
| Polyline.ReadRawTruncated | utils/route_utils.py:42-55 | reading fails exactly when every character from the start index on carries the continuation bit, so the text ends before the value does |
| Polyline.ReadValue | utils/route_utils.py:42-55 | on success `_decode_value` returns an index strictly past the start and at most the length of the text |
| Polyline.DecodeValue | utils/route_utils.py:42-55 | the `while True` loop with `result`, `shift`, `index` computes what `ReadValue` specifies, including the `Truncated` error |
| Polyline.ReadEncodedNumber | utils/route_utils.py:42-55 | decoding the characters `_encode_number(v)` wrote, followed by anything, gives back exactly v and the index just past them |
| Polyline.PrefixSums | utils/route_utils.py:64-75 | the k-th decoded integer point is the sum of the first k+1 decoded delta pairs |
| Polyline.Unscale | utils/route_utils.py:75 | one output point per integer point, each multiplied by the factor giving back the integers |
| Polyline.DecodedCases | utils/route_utils.py:58-77 | negative precision raises; "" gives []; otherwise success exactly when every value can be read and their count is even, one point per two values, and the only error is `Truncated` |
| Polyline.DecodeIntsByPairs | utils/route_utils.py:64-75 | the loop reads the values in pairs: success iff every value reads and there is an even number of them, with half as many points as values |
| Polyline.DecodePolyline | utils/route_utils.py:58-77 | the method with its running `lat`, `lng` and `index` returns what `decode_polyline` specifies: the precision error, or the unscaled prefix sums |
| Polyline.Scaled | serialize_gpx.py:66-68 | one scaled integer point per input point, each `int(round(x * 10 ** p))` through the rounding parameter |
| Polyline.EncodeScaledPoints | serialize_gpx.py:61-74 | the encoding loop appends, per point, the encodings of its latitude then longitude delta to the previous scaled point, starting from (0, 0) |
| Polyline.Encoded | serialize_gpx.py:55-74 | `encode_polyline` fails with a precision error exactly when the precision is negative, and otherwise gives the delta encoding; no points give "" |
| Polyline.EncodePolyline | serialize_gpx.py:55-74 | the precision check comes before any output; otherwise the loop's result is the delta encoding of the scaled points |
| Polyline.DecodeEncodeInts | utils/route_utils.py:64-75 | decoding an encoder output from the running sums it started from gives back the scaled integer points |
| Polyline.IntRoundTrip | utils/route_utils.py:58-77 | the integer round trip: decoding the encoding of integer points gives those points |
| Polyline.RoundTrip | utils/route_utils.py:58-77 | `decode_polyline(encode_polyline(points, p), p)` succeeds for p >= 0 and returns the scaled integers divided by 10^p, so rounding is the only loss |
| MapScript.Factor | map_scriptrs.js:11 | `precision \|\| 5`: an omitted precision or 0 gives 10^5, a positive one gives 10^p, and the factor is always positive |
| MapScript.ReadGroups | map_scriptrs.js:18-22 | a do-while group loop keeps a 32-bit pattern and always moves past its start index, at most one past the end of the text |
| MapScript.ReadValueBits | map_scriptrs.js:18-22 | the `do ... while (byte >= 0x20)` loop computes the 32-bit pattern and the index that `ReadNumber` specifies |
| MapScript.ReadPastEnd | map_scriptrs.js:18-22 | reading at or past the end never throws: the `NaN` code adds nothing to the value and ends the group |
| MapScript.DecodePolyline | map_scriptrs.js:1-42 | the outer loop pushes, per pass, the running sums of two un-zig-zagged 32-bit values divided by the factor |
| MapScript.DecodedCount | map_scriptrs.js:13-39 | "" decodes to [] and any other text to at least one coordinate; r coordinates need at least 2r - 1 characters, since a final coordinate may read its longitude past the end |
| MapScript.ChangeAgrees | map_scriptrs.js:24 | on a pattern below 2^31 the int32 `(r & 1) ? ~(r >> 1) : (r >> 1)` equals the Python un-zig-zag |
| MapScript.ReadChunks | map_scriptrs.js:18-22 | on the characters the Python encoder writes for a value below 2^31, the 32-bit loop reads exactly that value and stops just past them |
| MapScript.ReadEncodedNumber | map_scriptrs.js:18-24 | the 32-bit loop reads back a number the Python encoder wrote whenever its zig-zag fits in 31 bits |
| MapScript.DecodeEncodeInts | map_scriptrs.js:13-39 | on an encoder output whose zig-zagged deltas fit 31 bits, the outer loop gives back the scaled integer points |
| MapScript.AgreesWithPython | map_scriptrs.js:1-42 | on every encoder output whose zig-zagged deltas fit 31 bits, `decodePolyline` returns what the Python `decode_polyline` returns (precision omitted = 5); on other text the two may differ, as "?" shows (JS gives one coordinate, Python raises) |
| MapScript.TruncatedTextDiffers | map_scriptrs.js:13-39 | on "?", which is no encoder output, the browser decoder returns one coordinate while the Python decoder fails with `Truncated`: the agreement needs its encoder-output premise |
| Base64.Decode | utils/route_utils.py:34 | an accepted text has a length that is a multiple of four and at most two trailing pads |
| Base64.DecodeEncode | utils/route_utils.py:34 | decoding undoes `b64encode`: every byte string is read back from its base64 text |
| Base64.TrailingPads | utils/route_utils.py:32 | the count of trailing '=' characters, at most the length, with only '=' in that suffix |
| Utf8.DecodeEncodeChar | utils/route_utils.py:35 | each character's UTF-8 bytes decode back to it |
| Utf8.DecodeEncode | utils/route_utils.py:35 | strict UTF-8 decoding undoes `encode("utf-8")` on every text |
| RouteUtils.MaybeDecodeBase64 | utils/route_utils.py:19-39 | "" for empty or blank input; the stripped input, unchanged, when one of its characters is outside `BASE64_CHARS` |
| RouteUtils.MaybeDecodeFailure | utils/route_utils.py:32-37 | when the base64 or the UTF-8 decoding fails, the stripped input comes back unchanged |
| RouteUtils.MaybeDecodeWellFormed | utils/route_utils.py:29-39 | a non-empty alphabet-and-pad text whose length is a multiple of four is unwrapped to its decoded text when that is UTF-8 |
| RouteUtils.MaybeDecodeEncoded | utils/route_utils.py:19-39 | base64 text of UTF-8 text, as `b64encode(text.encode())` writes it, unwraps to that text |
| RouteUtils.DedupeSequential | utils/route_utils.py:92-100 | the loop with `prev` keeps a point exactly when it lies more than 1e-7 from the last kept point on some axis |
| RouteUtils.DedupeShape | utils/route_utils.py:92-100 | the result is a subsequence of the input that starts with its first point, and each kept point is more than 1e-7 from its predecessor on some axis |
| RouteUtils.DedupeKeepsSpread | utils/route_utils.py:92-100 | a route already free of near-duplicates passes through unchanged |
| RouteUtils.DedupeIdempotent | utils/route_utils.py:92-100 | filtering twice is filtering once |
| RouteUtils.ComputeSignedArea | utils/route_utils.py:103-111 | the accumulating loop over edges `(i, (i + 1) % n)` computes the closed shoelace sum halved, and 0 for fewer than three points |
| RouteUtils.RotationInvariant | utils/route_utils.py:103-111 | starting the polygon at any other vertex leaves the signed area unchanged |
| RouteUtils.ReversalNegates | utils/route_utils.py:103-111 | reversing the point order negates the signed area |
| RouteUtils.ClassifyPoints | utils/route_utils.py:137-151 | after the decode: not a loop with fewer than three cleaned points or a gap above the threshold; otherwise a loop, oriented only when abs(area) > 1e-12 |
| RouteUtils.ClassifyRouteLoop | utils/route_utils.py:114-151 | (False, None) for empty unwrapped text or any decode error (negative precision included); an orientation only ever with `is_loop` true |
| RouteUtils.OrientationSign | utils/route_utils.py:144-151 | a loop is counter-clockwise for a positive area, clockwise for a negative one, and unoriented within the epsilon |
| RouteUtils.ClassifyDecoded | utils/route_utils.py:128-137 | a route that unwraps and decodes to some points is classified by those points |
| RouteUtils.OrientationReversed | utils/route_utils.py:144-151 | walking a loop the other way swaps clockwise and counter-clockwise |
| Coordinates.KeepNew | utils/extract_route_from_ridewithgps.py:167-185 | one pair at most per entry: the list of kept pairs is never longer than the list of entries |
| Coordinates.CollectPoints | utils/extract_route_from_ridewithgps.py:167-185 | the appending loop with its `coords[-1]` test computes `KeepNew` |
| Coordinates.KeepNewShape | utils/extract_route_from_ridewithgps.py:180-181 | no two consecutive kept pairs are equal |
| Coordinates.KeepNewSource | utils/extract_route_from_ridewithgps.py:169-183 | every kept pair is the pair that some entry gives |
| Coordinates.KeepNewNone | utils/extract_route_from_ridewithgps.py:177-178 | when no entry gives a pair, nothing is kept |
| Coordinates.LowerKey | utils/extract_route_from_ridewithgps.py:189 | the lower-case key map sends a lowered name to a key of the dict that lowers to it, and has no entry exactly when no key lowers to it |
| Coordinates.LowerKeyLast | utils/extract_route_from_ridewithgps.py:189 | the key found is the LAST key of the dict that lowers to the name: later keys overwrite earlier ones in the comprehension |
| Coordinates.ChooseKeyFirst | utils/extract_route_from_ridewithgps.py:191-201 | the chosen key belongs to the earliest candidate name present case-insensitively; none present gives `None` |
| Coordinates.LatLonFromDict | utils/extract_route_from_ridewithgps.py:188-215 | with both named keys found (lat > latitude > y, lon > lng > longitude > x, any case) their `float()` values, else those of the guessed keys; `None` when no pair of keys is found or `float()` rejects a value |
| Coordinates.EncodePolylineValue | utils/extract_route_from_ridewithgps.py:278-287 | the copy of `_encode_number` writes exactly the reference encoder's characters |
| Coordinates.EncodePolyline | utils/extract_route_from_ridewithgps.py:258-275 | the copy of the encoding loop gives the reference `encode_polyline` output for every precision >= 0, and has no precision check |
| RideWithGps.LatLonFromSequence | utils/extract_route_from_ridewithgps.py:236-255 | `None` for fewer than two entries or a non-numeric value; a pair with lat in [-90, 90] and lon in [-180, 180], swapped when only the swapped order fits |
| RideWithGps.SequenceEntriesInRange | utils/extract_route_from_ridewithgps.py:249-253 | every pair read from a list entry is in range, whichever order the entry used |
| RideWithGps.GuessLatLonKeys | utils/extract_route_from_ridewithgps.py:218-233 | the loop picks the key of the first value in [-90, 90] as lat and the first other value in [-180, 180] as lon |
| RideWithGps.FirstLat | utils/extract_route_from_ridewithgps.py:228-229 | the lat candidate is the earliest entry whose numeric value is a latitude, and no earlier entry has one |
| RideWithGps.FirstLonOther | utils/extract_route_from_ridewithgps.py:230-231 | the lon candidate is the earliest other entry whose value is a longitude |
| RideWithGps.Coerced | utils/extract_route_from_ridewithgps.py:154-185 | a list gives no two consecutive equal pairs and no more pairs than entries; anything that is neither a list nor a dict gives [] |
| RideWithGps.CoerceCoordinateSequence | utils/extract_route_from_ridewithgps.py:154-185 | the method with its appending loop computes `Coerced` |
| RideWithGps.CoordinatesFirst | utils/extract_route_from_ridewithgps.py:154-156 | a dict with a non-`None` "coordinates" value is read through it, whatever else it holds |
| RideWithGps.PointsSecond | utils/extract_route_from_ridewithgps.py:157-159 | without a non-`None` "coordinates" value, a dict with a non-`None` "points" value is read through it |
| RideWithGps.NoRouteKeys | utils/extract_route_from_ridewithgps.py:153-160 | a dict with neither of the two keys holding a non-`None` value gives [] |
| RideWithGps.ExtractCoordinates | utils/extract_route_from_ridewithgps.py:130-151 | the deque walk returns the pairs of the first dict entry, in breadth-first order, that names a point list and gives pairs; else [] |
| RideWithGps.ExtractCoordinatesFirst | utils/extract_route_from_ridewithgps.py:130-151 | the walk returns [] exactly when no visited entry yields pairs, otherwise the pairs of the earliest visited node that does |
| JsonRoute.LatLonFromSequence | extract_events_from_json.py:129-135 | the first two values as floats in the given order, with no range check; `None` for fewer than two or a failed conversion |
| JsonRoute.GuessLatLonKeys | extract_events_from_json.py:138-158 | one pass picks the first key starting with "lat" and the first starting with "lon" or "lng"; failing that the digit-only fallback |
| JsonRoute.GuessedKeysSmallest | extract_events_from_json.py:153-158 | the fallback takes the smallest key made of ASCII digits, then the smallest of the rest, both keys of the dict; fewer than two gives (None, None) |
| JsonRoute.Coerced | extract_events_from_json.py:59-96 | a list gives no two consecutive equal pairs and no more pairs than entries; anything that is neither a list nor a dict, strings included, gives [] |
| JsonRoute.CoerceCoordinateSequence | extract_events_from_json.py:59-96 | the method with its appending loop computes `Coerced` |
| JsonRoute.CoordinatesFirst | extract_events_from_json.py:62-65 | a dict with a non-`None` "coordinates" value is read through it, whatever else it holds |
| JsonRoute.PointsSecond | extract_events_from_json.py:66-68 | without a non-`None` "coordinates" value, a non-`None` "points" value is read through |
| JsonRoute.TrackPointsThird | extract_events_from_json.py:69-71 | without either of those, a non-`None` "track_points" value is read through |
| JsonRoute.NoRouteKeys | extract_events_from_json.py:62-72 | a dict with none of the three keys holding a non-`None` value gives [] |
| JsonRoute.CollectCoordinates | extract_events_from_json.py:33-56 | the deque walk with its `best` variable returns the densest reading over the breadth-first order of the payload |
| JsonRoute.DensestPick | extract_events_from_json.py:47-53 | the node kept gives at least as many pairs as every node, and strictly more than every node before it |
| JsonRoute.CollectCoordinatesLongest | extract_events_from_json.py:33-56 | a longest sequence among the visited nodes, the earliest on a tie because of the strict `>`; [] exactly when every node gives [] |
| UrlExtract.DictPoint | extract_events_from_url.py:166-173 | only a dict point gives a pair |
| UrlExtract.PointsFromSource | extract_events_from_url.py:164-173 | every collected pair comes from a dict that gives exactly that pair |
| UrlExtract.PointsFromEmpty | extract_events_from_url.py:174-175 | no pair is collected exactly when no point gives one |
| UrlExtract.FalsyLatitudeDefers | extract_events_from_url.py:168 | a falsy "latitude" reads as if the key were missing |
| UrlExtract.EquatorDropped | extract_events_from_url.py:168-171 | a point on the equator given only by "latitude" is dropped, because 0.0 is falsy |
| UrlExtract.CollectDictPoints | extract_events_from_url.py:164-173 | the collecting loop gathers the pair of each point that gives one, in order |
| UrlExtract.EncodeFromPoints | extract_events_from_url.py:161-180 | `None` exactly when no point gives a pair; otherwise a non-empty string the reference decoder reads back as the scaled pairs |
| UrlExtract.PolylineHit | extract_events_from_url.py:145-156 | what an entry yields is never the empty string: an empty polyline or an empty point list counts as no hit |
| UrlExtract.ExtractPolylineFromPayload | extract_events_from_url.py:137-158 | the deque walk returns the first hit in breadth-first order, `None` when there is none |
| UrlExtract.ExtractPolylineFirst | extract_events_from_url.py:137-158 | `None` exactly when no visited entry yields a polyline, otherwise the non-empty polyline of the earliest node that does |
| UrlExtract.MinOf | extract_events_from_url.py:398 | `min(s)` is an element of s no greater than any element |
| UrlExtract.MaxOf | extract_events_from_url.py:399 | `max(s)` is an element of s no smaller than any element |
| UrlExtract.FlatMeansEqual | extract_events_from_url.py:402-403 | the flat test holds exactly when all x values, or all y values, are equal |
| UrlExtract.RatioInUnit | extract_events_from_url.py:417-421 | a value between the bounds has its ratio in [0, 1]; the bounds give 0 and 1 |
| UrlExtract.RemapPointInBox | extract_events_from_url.py:414-423 | a pixel inside the extent lands in the box; the extreme pixels land on the west, east, north and south edges, with pixel y growing downwards |
| UrlExtract.RemappedInBox | extract_events_from_url.py:388-425 | [] without points or extent; otherwise one (lat, lon) per pixel, each inside the box |
| UrlExtract.RemapPixelsToWgs84 | extract_events_from_url.py:388-425 | the method with its appending loop computes the interpolated pairs that `RemappedInBox` describes |
| UrlExtract.NormalizedInUnitSquare | extract_events_from_url.py:428-451 | [] without points or extent; otherwise one point per pixel in [0, 1] x [0, 1], y flipped so the topmost pixel is at 1 |
| UrlExtract.NormalizePixelsToUnitRoute | extract_events_from_url.py:428-451 | the method with its appending loop computes the scaled points that `NormalizedInUnitSquare` describes |
| DynamicLoader.ShiftFor | dynamic-loader.js:18-28 | the shift of a position is a palette entry, and it is [0, 0] exactly at positions 0, 9, 18, ... |
| DynamicLoader.AssignMarkerShifts | dynamic-loader.js:577-596 | after the call every marker of every group holds the palette shift of its position in its group (null entries ignored) |
| DynamicLoader.GroupedFind | dynamic-loader.js:583-587 | every marker sits in the group `find` returns for its position, which is the earliest group whose seed is within 0.03 on both axes; each seed is the first marker's position |
| DynamicLoader.GroupedMembers | dynamic-loader.js:580-592 | every non-null marker lands in a group, and groups keep input order |
| DynamicLoader.SeedsApart | dynamic-loader.js:583-587 | group seeds lie pairwise outside each other's 0.03 box |
| DynamicLoader.DistinctShifts | dynamic-loader.js:588-594 | when no marker is listed twice, each marker ends with the shift of its own position in its group |
| DynamicLoader.CategorizeEvents | dynamic-loader.js:144-171 | one pass buckets the timed events; upcoming and planning sorted by ascending time, past by descending time |
| DynamicLoader.BucketsPartition | dynamic-loader.js:152-164 | every event with a time lands in exactly one bucket, and events without a time in none |
| DynamicLoader.CategorizedOrder | dynamic-loader.js:166-168 | upcoming and planning are ascending and past descending by time; each list is a reordering of its bucket, and events with equal times keep their input order in all three |
| DynamicLoader.DeriveEventArea | dynamic-loader.js:469-485 | the label is "", NorCal or SoCal |
| DynamicLoader.AreaCases | dynamic-loader.js:469-485 | NorCal exactly when the text parses to a point in its box, SoCal exactly when in the southern box and not the northern; NorCal wins on the shared edge |
| DynamicLoader.AreaNeedsTwoParts | dynamic-loader.js:473-475 | text with a number of comma-separated parts other than two gives "" |
| DynamicLoader.RouteUrlPriority | dynamic-loader.js:487-498 | the route link is the first non-empty of the route URL, the Strava URL and an http source URL |
| DynamicLoader.ResolveSourceEventUrl | dynamic-loader.js:500-505 | the source URL when it is non-empty, else the route link: the first non-empty of the two, and empty exactly when both are |
| DynamicLoader.SourceLinkPresent | dynamic-loader.js:487-505 | the source link is empty exactly when the route, Strava and source URLs are all empty |
| DynamicLoader.ResolveSourceGroupName | dynamic-loader.js:507-518 | the result ends with the group name, and is the bare group name exactly when the type is not strava, wechat or news |
| DynamicLoader.NormalizeText | dynamic-loader.js:134-142 | null and undefined give ""; any other value gives the JS trim of its text (a string itself, otherwise `String(value)`), so the result neither starts nor ends with JS white space |
| DynamicLoader.NormalizeTextIdempotent | dynamic-loader.js:134-142 | normalising normalised text changes nothing |
| DynamicLoader.EscapeChainPerChar | dynamic-loader.js:541-546 | because '&' is replaced first, the chain of global replacements equals per-character escaping, so no entity is escaped twice |
| DynamicLoader.EscapeHtmlSafe | dynamic-loader.js:537-547 | the escaped text has no '<', '>', '"' or '\'' and is the per-character escaping of the value's text |
| DynamicLoader.EscapeAttributeSafe | dynamic-loader.js:549-551 | an attribute value has no markup characters, and each line feed becomes a space |
| ExtendedJson.WrapNumberLong | utils/event_storage.py:112-117 | `None` and only `None` maps to `None`; every other value becomes a dict holding `$numberLong` (the same function in all three scripts) |
| ExtendedJson.WrapNumberLongIdempotent | utils/event_storage.py:112-117 | wrapping twice is wrapping once, since a dict that holds `$numberLong` is returned as it is |
| ExtendedJson.UnwrapNumberLong | utils/event_storage.py:17-26 | a non-dict is returned unchanged, and so is a dict whose `$numberLong` is falsy and whose `$oid` is missing or `None` |
| ExtendedJson.UnwrapWrapNumberLong | utils/event_storage.py:17-26 | unwrapping a wrapped integer gives the integer back |
| ExtendedJson.UnwrapText | utils/event_storage.py:20-25 | wrapped text becomes the integer `int()` reads from it, or is returned as it is when `int()` rejects it |
| ExtendedJson.IsoWithMillisInserts | update_strava_events.py:40-53 | the text is unchanged when it has a '.' or non-zero microseconds; otherwise ".000" is inserted before a trailing "Z", before the last '+' or '-' past index 10, or at the end |
| ExtendedJson.IsoWithMillisIdempotent | dehydrate_events.py:31-45 | padding padded text changes nothing |
| ExtendedJson.WrapDate | dehydrate_events.py:48-58 | `None` and only `None` maps to `None`; every other value becomes a dict holding `$date` |
| ExtendedJson.WrapDateIdempotent | dehydrate_events.py:48-58 | wrapping twice is wrapping once |
| ExtendedJson.StringList | utils/event_storage.py:131-136 | `None` gives []; a list gives the texts of the items the version keeps; anything else gives the list of its own text |
| ExtendedJson.KeepAsTextSource | utils/event_storage.py:135 | each string is the text of an accepted item |
| ExtendedJson.KeepAsTextAppend | utils/event_storage.py:135 | the strings keep the items' order: the list splits as the items do |
| ExtendedJson.KeepAsTextAll | utils/event_storage.py:135 | when every item is accepted there is one string per item |
| ExtendedJson.ZeroItem | dehydrate_events.py:66 | a zero item is kept by `utils/event_storage.py` and dropped by the other two copies, which keep only truthy items |
| ExtendedJson.CleanDict | utils/event_storage.py:139-154 | the loop over the entries computes `Cleaned`: `None` skipped, nested dicts cleaned and stored only when non-empty, lists stripped of `None` and "" |
| ExtendedJson.CleanedGet | utils/event_storage.py:139-154 | each key of the result reads what cleaning made of its value; a key whose value was `None` or cleaned to an empty dict is absent |
| ExtendedJson.CleanedClean | utils/event_storage.py:139-154 | no value of the cleaned dict or of a dict nested in it is `None`, no nested dict is empty, no list holds `None` or "" items (dicts inside lists are not cleaned), and the keys are distinct |
| ExtendedJson.CleanedKeys | utils/event_storage.py:139-154 | the result's keys are some of the input's keys, in the same order |
| ExtendedJson.CleanedIdempotent | dehydrate_events.py:70-86 | `clean_dict` is idempotent |
| ExtendedJson.CleanValueFixed | utils/event_storage.py:141-153 | an already clean value is stored as it is |
| EventDocument.Put | dehydrate_events.py:93 | `d[k] = v` keeps the keys distinct; k then reads v and every other key reads as before |
| EventDocument.Pop | dehydrate_events.py:101 | `d.pop(k, None)` keeps the keys distinct; k is then absent and every other key reads as before |
| EventDocument.NormalizePictures | dehydrate_events.py:97-103 | `event_picture_urls` becomes a list of strings read from itself, else from `event_picture_url` (which is then popped), else [] |
| EventDocument.FillSourceUrl | dehydrate_events.py:105-106 | an empty or missing `source_url` is filled from `strava_url`, "" by default; other keys are untouched |
| EventDocument.WrapFields | dehydrate_events.py:93-95 | both ids are wrapped in `$numberLong` and the time in `$date`, and nothing else changes |
| EventDocument.DehydrateFields | dehydrate_events.py:91-106 | no `raw_event`; the ids and the time wrapped; the picture list; the filled source URL; every other key as in the input |
| EventDocument.DehydrateEvent | dehydrate_events.py:89-108 | the cleaned result: no `raw_event`, no `None` in the document or its nested dicts (dicts inside lists are not cleaned), an `event_picture_urls` list always present, ids and time wrapped, other keys cleaned copies of the input (as `update_strava_events.py:108-126` repeats) |
| EventDocument.WrappedIdKept | dehydrate_events.py:93-94 | a non-dict id survives cleaning as its `$numberLong` wrapper |
| EventStorage.CoerceDatetime | utils/event_storage.py:29-46 | the `$date` of a dict is read first; only a datetime or a parseable string gives a time |
| EventStorage.StorageIsoUtc | utils/event_storage.py:101-109 | for a naive UTC text the stored text is that text plus "Z", after ".000" when there is no fraction |
| EventStorage.StorageWrapDate | utils/event_storage.py:120-128 | `None` exactly for `None` or a value that does not coerce (dicts with `$date` kept); otherwise a `$date` dict |
| EventStorage.RehydrateEventForStorage | utils/event_storage.py:157-183 | present ids wrapped; a present time wrapped or dropped; an `event_picture_urls` list always present, `event_picture_url` popped only when used; the source URL filled; the result clean |
| EventStorage.StoredTime | utils/event_storage.py:165-170 | a time that coerces is stored as its UTC text ending in "Z", with ".000" when there is no fraction |
| EventStorage.NormalizeEventForRuntime | utils/event_storage.py:49-69 | `None` exactly when the time cannot be coerced; otherwise present ids unwrapped, the time coerced, a truthy `_id` (the default "{type}-{group}-{event}" when falsy), every other key unchanged |
| EventStorage.FillDefaultId | utils/event_storage.py:62-67 | a falsy `_id` becomes the default id and a truthy one is kept; other keys are untouched |
| EventStorage.UnwrappedIdFields | utils/event_storage.py:62-67 | the default `_id` text built after the ids are unwrapped is `DefaultId` of the incoming event |
| StravaEvents.IsEmptyValue | update_strava_events.py:77-86 | `None`, "", [] and {} are empty and False, 0 and 0.0 are not: every empty value is falsy, and a falsy value is empty unless it is a bool or a number |
| StravaEvents.StravaEventKey | update_strava_events.py:142-159 | `None` for a non-Strava event; for a Strava event, "id:" and the id's text whenever the id is truthy; else an error exactly when the URL is not text; else "url:" and the stripped URL when that is non-empty; else "_id:" and `str(_id)` when `_id` is truthy; else `None`; a key is never empty |
| StravaEvents.IdKeysMatchOnlyIds | update_strava_events.py:149-157 | an id key is never shared with a URL or `_id` key: equal id keys mean truthy ids with the same text |
| StravaEvents.KeyShape | update_strava_events.py:149-157 | a key starts with 'i' exactly when the event has a truthy id, and then the id's text follows "id:"; it starts with 'u' exactly when there is no truthy id and the stripped URL is non-empty: id before URL before `_id` |
| StravaEvents.KeySurvivesWrapping | update_strava_events.py:146-150 | a stored copy whose id is `$numberLong`-wrapped has the same key as the fresh event |
| StravaEvents.EventTimeSortKey | update_strava_events.py:162-175 | the parsed time whenever the text (after "Z" becomes "+00:00") parses, and the year-9999 sentinel for anything else |
| StravaEvents.MergeEventFields | update_strava_events.py:178-191 | the loop over the incoming entries computes the merged copy `MergedFields` |
| StravaEvents.MergedGet | update_strava_events.py:178-191 | every key of the merge reads `raw_event` from incoming, the existing value when the incoming one is empty and the existing one is not, else the incoming value, else the existing value |
| StravaEvents.MergedKeys | update_strava_events.py:178-191 | the merge holds exactly the keys of both documents |
| StravaEvents.MergeKeepsNonEmpty | update_strava_events.py:186-189 | a non-empty existing value is never replaced by an empty one, except under `raw_event` |
| StravaEvents.MergeTakesRawEvent | update_strava_events.py:182-184 | `raw_event` always comes from the incoming event when it has one, even an empty one |
| StravaEvents.IndexStoredEvents | update_strava_events.py:198-203 | the first loop succeeds exactly when the key of every stored event can be computed, and then builds the key table and the list of unkeyed events |
| StravaEvents.MergeFreshEvents | update_strava_events.py:205-213 | the second loop succeeds exactly when the key of every fresh event can be computed, and then updates the key table and lists the unkeyed events |
| StravaEvents.MergeFreshUntouched | update_strava_events.py:205-213 | a key no fresh event carries keeps the event filed under it |
| StravaEvents.MergeFreshFiles | update_strava_events.py:208-211 | the last fresh event with a key is merged into what is filed under it; when the key is new to the table and to the earlier fresh events, it is filed as it is |
| StravaEvents.OneEventPerKey | update_strava_events.py:194-215 | the table holds one event per key, and a key for every key a stored or fresh event carries |
| StravaEvents.MergeEvents | update_strava_events.py:194-217 | an error exactly when the key of some event raises; otherwise the gathered events sorted by time |
| StravaEvents.MergedEventsPermutation | update_strava_events.py:215-216 | the result is a reordering of the unkeyed events plus the table's events, and contains every unkeyed event of either input |
| StravaEvents.MergedEventsOrdered | update_strava_events.py:216 | the result is ordered by event time, and events with equal times keep their gathered order |
| StravaEvents.UnparsedTimesLast | update_strava_events.py:175 | an event whose time does not parse comes after every event whose parsed time is before the 9999-12-31 sentinel |
| Cleanup.ParseNumberLong | cleanup_events.py:20-41 | `None` for `None` and for a dict without `$numberLong` or `$numberInt`; a dict reads `int()` of its `$numberLong` value, else of its `$numberInt` value; a bool is 0 or 1, an int itself, a float truncated toward zero, a string what `int()` parses |
| Cleanup.ParseWrappedId | cleanup_events.py:20-41 | an id wrapped in `$numberLong` reads back as the same integer |
| Cleanup.NumberLongFirst | cleanup_events.py:27-30 | `$numberLong` wins over `$numberInt` when a dict holds both |
| Cleanup.ParseEventDatetime | cleanup_events.py:44-69 | `None` for `None`; the `$date` of a dict is read in its place; a bool, int or float is `fromtimestamp` of its value; anything else is `str()`-ed and stripped, blank gives `None`, and a final "Z" is read as "+00:00" before `fromisoformat` |
| Cleanup.DateWrapperTransparent | cleanup_events.py:49-50 | a `$date` wrapper around a non-`None`, non-dict value reads exactly as the value itself |
| Cleanup.OnlySyncedGroupsRemoved | cleanup_events.py:72-81 | a removed event is a Strava event of one of the four synced groups with a parseable time before the cutoff |
| Cleanup.AtCutoffKept | cleanup_events.py:81 | an event exactly at the cutoff is kept |
| Cleanup.LaterCutoffRemovesMore | cleanup_events.py:81 | a later cutoff removes every event an earlier one removes |
| Cleanup.CleanupEvents | cleanup_events.py:84-92 | `kept` are the events that fail the test and `removed` those that pass, each in input order |
| Cleanup.CleanupPartition | cleanup_events.py:84-92 | the two lists are order-preserving subsequences that together hold every event exactly once; removed events pass the test and kept events fail it |
| PyValue.ToFloat | utils/extract_route_from_ridewithgps.py:290-296 | `float(v)`: a bool is 1.0 or 0.0, ints and floats are themselves, text is what `float()` parses, and `None`, lists, dicts and datetimes fail |
| PyValue.ToInt | cleanup_events.py:36-41 | `int(v)`: a bool is 0 or 1, an int itself, a float truncated toward zero, a string what `int()` parses, and `None`, lists, dicts and datetimes fail |
| PyValue.Truncate | cleanup_events.py:36-41 | `int(f)` rounds toward zero: the result is within one of f, on the side of zero |
| PyValue.Assign | update_strava_events.py:189 | `d[k] = v`: an existing key keeps its place and a new key goes last |
| PyValue.Remove | utils/event_storage.py:178 | `d.pop(k, None)`: no entry of k is left, and every entry left was in the dict |
| PyValue.BfsOrder | extract_events_from_json.py:33-56 | the walk that pops the front of a deque and pushes its children at the back visits the first start node first |
| PyValue.BfsVisitsQueue | extract_events_from_json.py:33-56 | the walk visits every start node, the start nodes first and in order |
| PyValue.BfsVisitsChildren | extract_events_from_json.py:48-53 | every child of a visited node is visited too |
| PyValue.FirstHitFirst | utils/extract_route_from_ridewithgps.py:130-151 | the hit found is the hit of the earliest visited node that has one |
| PyValue.SearchEntries | utils/extract_route_from_ridewithgps.py:130-151 | the deque walk with early return gives the first hit in breadth-first order |
| Text.Trim | utils/route_utils.py:25 | the result starts and ends outside white space, and is empty exactly when every character is white space |
| Text.TrimTwice | utils/route_utils.py:25 | stripping is idempotent |
| Text.AsciiLower | utils/extract_route_from_ridewithgps.py:189 | ASCII letters are lower-cased and every other character is left alone |
| Text.SortTextSorted | extract_events_from_json.py:155 | `numeric_keys.sort()` leaves its strings in ascending order |
| Text.SortTextFirstTwo | extract_events_from_json.py:156 | the first two sorted strings are the smallest string and the smallest of the rest |
| Text.ParseIntToString | cleanup_events.py:36-41 | `int(str(n)) == n` for every integer n |
| Text.JoinSplit | dynamic-loader.js:473 | splitting on a separator loses nothing: joining the parts gives back the text |
| Text.RFind | update_strava_events.py:47 | the last index holding the character, or -1 when there is none |
| Text.ReplaceAllWhole | dynamic-loader.js:542 | a global replace turns the pattern itself into the replacement |
| Sequences.SortByKeySorted | update_strava_events.py:216 | the stable sort orders its output by ascending key |
| Sequences.SortByKeyPermutation | update_strava_events.py:216 | the sort only reorders: its output is a permutation of its input |
| Sequences.SortByKeyStable | dynamic-loader.js:166-168 | the sort is stable: elements sharing a key keep their input order |
| Sequences.FilterRejectPartition | cleanup_events.py:87-91 | filter and reject together hold every element exactly once |
| Sequences.FilterRejectSubsequences | cleanup_events.py:87-91 | both halves keep the input order |
| Sequences.FilterRejectMembers | cleanup_events.py:87-91 | what the filter keeps passes the test and what the reject keeps fails it |
| Bits.BitOrDisjoint | utils/route_utils.py:50 | OR-ing a value that fits below bit k into a multiple of 2^k adds the two |

## Left out

- Network access is not part of this model. That means the Strava, Google Maps, Garmin, Ride with GPS and Gemini requests, and the module-level script code of `update_strava_events.py` after its helpers.
- File, JSON and XML I/O is not part of this model: the `load_*` and `save_*` functions, `extract_encoded_route`, and `iter_gpx_points` / `_iter_points` (ElementTree).
- HTML and DOM rendering is not part of this model: the page builders of `dynamic-loader.js`, `initMap` of `map_scriptrs.js`, and the `load_html_script.py` variants.
- Floating-point arithmetic is not modelled. Coordinates are exact reals. `int(round(x * 10 ** p))` is the parameter `scale`, with Python's round-half-to-even left abstract. NaN and infinities are not values of the model.
- RouteUtils.ClassifyRouteLoop: the haversine distance (`utils/route_utils.py:80-89`) is the parameter `distance`. The closure branch is stated in terms of it, and no property of the sphere is proved.
- Parsing and time-zone conversion of dates are parameters: `Calendar` in `EventStorage`, `Clock` in `Cleanup`, and `parse` in `StravaEvents`. A datetime stands as its `isoformat()` text and its microseconds.
- JavaScript's `Number(text)` and `String(number)` are the parameters `toNumber` and `numberText`. Python's `float(text)` is `floatOf`, and `str()` of floats, lists, dicts and datetimes is `repr`.
- Text is a sequence of Unicode scalar values. JavaScript's UTF-16 code units differ only outside the Basic Multilingual Plane, and a polyline is ASCII.
- StravaEvents.IsEmptyValue: tuples and sets are not JSON values, so only `None`, "", lists and dicts are modelled as possibly empty.
- StravaEvents.StravaEventKey: the `AttributeError` that `.strip()` raises on a non-string URL is a `Failure` result, which `MergeEvents` propagates.
- StravaEvents.MergeEvents: `merged.sort` sorts in place. The model sorts a value with the stable sort `Sequences.SortByKey`, which states the same order.
- Text.AsciiLower: only ASCII letters are lower-cased. Python's `str.lower()` maps other letters too, and one of them lands in ASCII: U+212A KELVIN SIGN becomes 'k'. So a key such as "TRAC\u212A_POINTS" is read as "track_points" by `utils/extract_route_from_ridewithgps.py:138-139` but not by `RideWithGps`. The latitude and longitude names that `Coordinates.LowerKey` looks up contain no 'k', so that lookup is unaffected.
- JsonRoute.IsDigits: only the ASCII digits count. Python's `str.isdigit()` also accepts other Unicode digits (Arabic-Indic, superscripts), so a dict keyed by such digits is guessed in Python and not here.
- JsonRoute.GuessedKeysSmallest: states the smallest keys among those of ASCII digits only, as `JsonRoute.IsDigits` above.
- Text.ParseInt: only ASCII digits are read. Python's `int()` also accepts the other Unicode decimal digits (`int("١٢") == 12`), where the model gives `None`.
- PyValue.ToInt: a string is read by `Text.ParseInt`, so only ASCII digits, as above.
- Cleanup.ParseNumberLong: a string is read by `Text.ParseInt`, so only ASCII digits, as above.
- ExtendedJson.UnwrapText: wrapped text of non-ASCII decimal digits stays text here, where Python's `int()` would turn it into an integer.
- Cleanup.ParseEventDatetime: `datetime.fromtimestamp` raises `OverflowError`, `OSError` or `ValueError` on a number outside its range (such as `1e20`), and `float()` raises `OverflowError` on an integer too large for a float. Nothing in `cleanup_events.py` catches these, so the script stops. The model's `Clock.fromTimestamp` is total and does not model that abort.
- JsonRoute.CollectCoordinates: the `id()`-based seen set is not modelled. CPython's `json` shares the objects for `None`, `True`, `False` and small integers, so the set does skip repeated scalars; the skip changes nothing, since a scalar coerces to [] and has no children.
- DynamicLoader.AssignMarkerShifts: the markers' falsy entries are modelled as `null`. Other falsy values (`0`, `""`, `false`) cannot occur in the marker list the page builds.
- DynamicLoader.EscapeHtml: a non-string value is first turned into text through `numberText` for numbers and "true" / "false" for booleans. Objects are not modelled.
- The helpers `get_overlapping_gps_coords` and `insert_shift_to_event_markers` are imported by the page generators but defined in no file here. They are not part of this model, and `DynamicLoader.AssignMarkerShifts` stands for the marker shifting.
