/**
 * `utils/event_storage.py`: events read from and written to the JSON store.
 * On the way in, `normalize_event_for_runtime` unwraps the `$numberLong`
 * ids, turns the time into a naive UTC datetime (dropping the event when it
 * cannot) and fills a missing `_id`; on the way out,
 * `rehydrate_event_for_storage` wraps the ids and the time again, turns the
 * picture fields into a list of strings, fills an empty source URL and
 * cleans the document.
 *
 * Parsing ISO text and converting between time zones is library behaviour:
 * it comes in as a `Calendar`, and a datetime stands as the `isoformat()`
 * text and the microseconds of its naive UTC value.
 */
module EventStorage {
  import opened Wrappers
  import opened Text
  import opened PyValue
  import opened ExtendedJson
  import opened EventDocument

  /** A naive UTC datetime: its `isoformat()` text, without offset, and its microseconds. */
  datatype UtcTime = UtcTime(iso: string, microsecond: nat)

  /**
   * The `datetime` library as `_coerce_datetime` uses it: `fromIso` is
   * `datetime.fromisoformat` followed by the conversion to naive UTC (a
   * naive result counts as UTC), `None` where it raises `ValueError`;
   * `toUtc` converts a datetime value the same way.
   */
  datatype Calendar = Calendar(fromIso: string -> Option<UtcTime>, toUtc: (string, nat) -> UtcTime)

  /** A naive UTC datetime as the value stored in an event. */
  function AsValue(t: UtcTime): Value
  {
    DateTime(t.iso, t.microsecond)
  }

  /**
   * `_coerce_datetime`: the `$date` of a dict is taken first; a datetime is
   * converted, a string has "Z" replaced by "+00:00" and is parsed, and
   * anything else gives `None`.
   */
  function CoerceDatetime(v: Value, cal: Calendar): (r: Option<UtcTime>)
    ensures var w := if v.Dict? then GetOrNull(v.entries, "$date") else v;
      !w.DateTime? && !w.Str? ==> r.None?
  {
    var w := if v.Dict? then GetOrNull(v.entries, "$date") else v;
    if w.DateTime? then Some(cal.toUtc(w.iso, w.microsecond))
    else if w.Str? then cal.fromIso(ReplaceAll(w.s, "Z", "+00:00"))
    else None
  }

  // ------------------------------------------------------------------ writing

  /**
   * `isoformat_datetime` of this module on a naive UTC datetime: the UTC
   * `isoformat()` text with "+00:00" replaced by "Z", and ".000Z" in place
   * of "Z" when there is no fraction.
   */
  function StorageIso(t: UtcTime): string
  {
    var z := ReplaceAll(t.iso + "+00:00", "+00:00", "Z");
    if t.microsecond == 0 && '.' !in z then ReplaceAll(z, "Z", ".000Z") else z
  }

  /**
   * For the text of a naive datetime (no '+' and no 'Z' in it) the stored
   * text is that text with "Z" appended, after ".000" when there is no
   * fraction.
   */
  lemma {:induction false} StorageIsoUtc(t: UtcTime)
    requires '+' !in t.iso && 'Z' !in t.iso
    ensures StorageIso(t) == t.iso + (if t.microsecond == 0 && '.' !in t.iso then ".000Z" else "Z")
  {
    ReplaceAllSkips(t.iso, "+00:00", "+00:00", "Z");
    ReplaceAllWhole("+00:00", "Z");
    var z := t.iso + "Z";
    assert ReplaceAll(t.iso + "+00:00", "+00:00", "Z") == z;
    if t.microsecond == 0 && '.' !in z {
      ReplaceAllSkips(t.iso, "Z", "Z", ".000Z");
      ReplaceAllWhole("Z", ".000Z");
    }
    assert '.' in z <==> '.' in t.iso by {
      assert forall i :: 0 <= i < |t.iso| ==> z[i] == t.iso[i];
    }
  }

  /**
   * `wrap_date` of this module: `None` stays `None`, a dict holding `$date`
   * is returned as it is, a value that coerces to a datetime becomes
   * `{"$date": isoformat_datetime(dt)}`, and anything else `None`.
   */
  function StorageWrapDate(v: Value, cal: Calendar): (r: Value)
    ensures r.Null? <==> v.Null? || (!(v.Dict? && HasKey(v.entries, "$date")) && CoerceDatetime(v, cal).None?)
    ensures !r.Null? ==> r.Dict? && HasKey(r.entries, "$date")
  {
    if v.Null? then Null
    else if v.Dict? && HasKey(v.entries, "$date") then v
    else
      var dt := CoerceDatetime(v, cal);
      if dt.None? then Null
      else
        var entries := [("$date", Str(StorageIso(dt.value)))];
        assert entries[0].0 == "$date";
        Dict(entries)
  }

  /** The keys `rehydrate_event_for_storage` rewrites. */
  const StorageRewritten: set<string> := {"source_event_id", "source_group_id", "event_time_utc",
                                          "event_picture_urls", "event_picture_url", "source_url"}

  /** Wrap each id that is present in `$numberLong`, and wrap the time or pop it. */
  method WrapStoredFields(d: Entries, cal: Calendar, repr: Value -> string) returns (r: Entries)
    requires UniqueKeys(d)
    ensures UniqueKeys(r)
    ensures Get(r, "source_event_id") ==
      if HasKey(d, "source_event_id") then Some(WrapNumberLong(GetOrNull(d, "source_event_id"), repr)) else None
    ensures Get(r, "source_group_id") ==
      if HasKey(d, "source_group_id") then Some(WrapNumberLong(GetOrNull(d, "source_group_id"), repr)) else None
    ensures var time := StorageWrapDate(GetOrNull(d, "event_time_utc"), cal);
      Get(r, "event_time_utc") == if HasKey(d, "event_time_utc") && !time.Null? then Some(time) else None
    ensures forall k :: k != "source_event_id" && k != "source_group_id" && k != "event_time_utc" ==>
      Get(r, k) == Get(d, k)
  {
    r := d;
    if HasKey(r, "source_event_id") {
      r := Put(r, "source_event_id", WrapNumberLong(GetOrNull(r, "source_event_id"), repr));
    }
    if HasKey(r, "source_group_id") {
      r := Put(r, "source_group_id", WrapNumberLong(GetOrNull(r, "source_group_id"), repr));
    }
    if HasKey(r, "event_time_utc") {
      var eventTime := StorageWrapDate(GetOrNull(r, "event_time_utc"), cal);
      if !eventTime.Null? {
        r := Put(r, "event_time_utc", eventTime);
      } else {
        r := Pop(r, "event_time_utc");
      }
    } else {
      assert Get(r, "event_time_utc") == None;
    }
  }

  /** The steps of `rehydrate_event_for_storage` before the final `clean_dict`. */
  method RehydrateFields(event: Entries, cal: Calendar, repr: Value -> string) returns (d: Entries)
    requires UniqueKeys(event)
    ensures UniqueKeys(d)
    ensures Get(d, "source_event_id") ==
      if HasKey(event, "source_event_id") then Some(WrapNumberLong(GetOrNull(event, "source_event_id"), repr)) else None
    ensures Get(d, "source_group_id") ==
      if HasKey(event, "source_group_id") then Some(WrapNumberLong(GetOrNull(event, "source_group_id"), repr)) else None
    ensures var time := StorageWrapDate(GetOrNull(event, "event_time_utc"), cal);
      Get(d, "event_time_utc") == if HasKey(event, "event_time_utc") && !time.Null? then Some(time) else None
    ensures Get(d, "event_picture_urls") == Some(List(Texts(PictureUrls(event, NotBlank, repr))))
    ensures !HasKey(event, "event_picture_urls") && HasKey(event, "event_picture_url") ==> !HasKey(d, "event_picture_url")
    ensures HasKey(event, "event_picture_urls") || !HasKey(event, "event_picture_url") ==>
      Get(d, "event_picture_url") == Get(event, "event_picture_url")
    ensures Get(d, "source_url") == Some(SourceUrl(event))
    ensures forall k :: k !in StorageRewritten ==> Get(d, k) == Get(event, k)
  {
    var wrapped := WrapStoredFields(event, cal, repr);
    assert Get(wrapped, "event_picture_urls") == Get(event, "event_picture_urls");
    assert Get(wrapped, "event_picture_url") == Get(event, "event_picture_url");
    PictureUrlsSame(wrapped, event, NotBlank, repr);
    SourceUrlSame(wrapped, event);
    d := FinishFields(wrapped, NotBlank, repr);
    forall k | k !in StorageRewritten
      ensures Get(d, k) == Get(event, k)
    {
      assert k != "event_picture_urls" && k != "event_picture_url" && k != "source_url";
      assert k != "source_event_id" && k != "source_group_id" && k != "event_time_utc";
      assert Get(d, k) == Get(wrapped, k);
    }
  }

  /**
   * `rehydrate_event_for_storage`: each id that is present is wrapped in
   * `$numberLong`, a present time is wrapped in `$date` or dropped when it
   * cannot be, the picture fields become a list of strings (`None` and ""
   * items dropped), an empty or missing source URL is filled from
   * `strava_url`, and the result is cleaned. The output holds no `None` in
   * it or in a nested dict (dicts inside lists are not cleaned) and always holds `event_picture_urls` as a list;
   * `event_picture_url` is gone exactly when it was the source of the list.
   */
  method RehydrateEventForStorage(event: Entries, cal: Calendar, repr: Value -> string) returns (r: Entries)
    requires UniqueKeys(event)
    ensures IsClean(r) && UniqueKeys(r)
    ensures Get(r, "source_event_id") ==
      if HasKey(event, "source_event_id") then CleanValue(WrapNumberLong(GetOrNull(event, "source_event_id"), repr)) else None
    ensures Get(r, "source_group_id") ==
      if HasKey(event, "source_group_id") then CleanValue(WrapNumberLong(GetOrNull(event, "source_group_id"), repr)) else None
    ensures Get(r, "event_time_utc") ==
      if HasKey(event, "event_time_utc") then CleanValue(StorageWrapDate(GetOrNull(event, "event_time_utc"), cal)) else None
    ensures Get(r, "event_picture_urls") == CleanValue(List(Texts(PictureUrls(event, NotBlank, repr))))
    ensures Get(r, "event_picture_urls").Some? && Get(r, "event_picture_urls").value.List?
    ensures !HasKey(event, "event_picture_urls") && HasKey(event, "event_picture_url") ==> !HasKey(r, "event_picture_url")
    ensures HasKey(event, "event_picture_urls") || !HasKey(event, "event_picture_url") ==>
      Get(r, "event_picture_url") == CleanGet(event, "event_picture_url")
    ensures Get(r, "source_url") == CleanValue(SourceUrl(event))
    ensures forall k :: k !in StorageRewritten ==> Get(r, k) == CleanGet(event, k)
  {
    var d := RehydrateFields(event, cal, repr);
    r := CleanDict(d);
    CleanedClean(d);
    forall k
      ensures Get(r, k) == CleanGet(d, k)
    {
      CleanedGet(d, k);
    }
    CleanedList(Texts(PictureUrls(event, NotBlank, repr)));
    if !HasKey(event, "event_picture_urls") && HasKey(event, "event_picture_url") {
      assert Get(d, "event_picture_url") == None;
      assert Get(r, "event_picture_url") == None;
    }
  }

  /**
   * A time that is not yet wrapped and coerces is stored as the UTC text
   * ending in "Z", padded with ".000" when there is no fraction.
   */
  lemma {:induction false} StoredTime(event: Entries, cal: Calendar, t: UtcTime)
    requires var v := GetOrNull(event, "event_time_utc");
      !v.Null? && !(v.Dict? && HasKey(v.entries, "$date")) && CoerceDatetime(v, cal) == Some(t)
    requires '+' !in t.iso && 'Z' !in t.iso
    ensures StorageWrapDate(GetOrNull(event, "event_time_utc"), cal)
      == Dict([("$date", Str(t.iso + (if t.microsecond == 0 && '.' !in t.iso then ".000Z" else "Z")))])
  {
    StorageIsoUtc(t);
  }

  // ------------------------------------------------------------------ reading

  /** The text of an id in the default `_id`: its unwrapped value, or "unknown" when it is missing. */
  function IdText(event: Entries, key: string, repr: Value -> string): string
  {
    if HasKey(event, key) then StrOf(UnwrapNumberLong(GetOrNull(event, key)), repr) else "unknown"
  }

  /** The default `_id`: "{source_type}-{source_group_id}-{source_event_id}". */
  function DefaultId(event: Entries, repr: Value -> string): (r: string)
    ensures r != []
  {
    StrOf(GetOr(event, "source_type", Str("event")), repr) + "-" + IdText(event, "source_group_id", repr)
      + "-" + IdText(event, "source_event_id", repr)
  }

  /** The ids unwrapped where present. */
  method UnwrapIds(d: Entries) returns (r: Entries)
    requires UniqueKeys(d)
    ensures UniqueKeys(r)
    ensures Get(r, "source_group_id") ==
      if HasKey(d, "source_group_id") then Some(UnwrapNumberLong(GetOrNull(d, "source_group_id"))) else None
    ensures Get(r, "source_event_id") ==
      if HasKey(d, "source_event_id") then Some(UnwrapNumberLong(GetOrNull(d, "source_event_id"))) else None
    ensures forall k :: k != "source_group_id" && k != "source_event_id" ==> Get(r, k) == Get(d, k)
  {
    r := d;
    if HasKey(r, "source_group_id") {
      r := Put(r, "source_group_id", UnwrapNumberLong(GetOrNull(r, "source_group_id")));
    }
    if HasKey(r, "source_event_id") {
      r := Put(r, "source_event_id", UnwrapNumberLong(GetOrNull(r, "source_event_id")));
    }
  }

  /**
   * `normalize_event_for_runtime`: `None` exactly when the time cannot be
   * coerced. Otherwise the ids are unwrapped, the time is the naive UTC
   * datetime, `_id` is kept when truthy and else set to the default, which
   * is never empty, and every other key is unchanged.
   */
  method NormalizeEventForRuntime(event: Entries, cal: Calendar, repr: Value -> string) returns (r: Option<Entries>)
    requires UniqueKeys(event)
    ensures r.None? <==> CoerceDatetime(GetOrNull(event, "event_time_utc"), cal).None?
    ensures r.Some? ==> UniqueKeys(r.value)
    ensures r.Some? ==>
      Get(r.value, "event_time_utc") == Some(AsValue(CoerceDatetime(GetOrNull(event, "event_time_utc"), cal).value))
    ensures r.Some? ==> (Get(r.value, "source_group_id") ==
      if HasKey(event, "source_group_id") then Some(UnwrapNumberLong(GetOrNull(event, "source_group_id"))) else None)
    ensures r.Some? ==> (Get(r.value, "source_event_id") ==
      if HasKey(event, "source_event_id") then Some(UnwrapNumberLong(GetOrNull(event, "source_event_id"))) else None)
    ensures r.Some? ==> Truthy(GetOrNull(r.value, "_id"))
    ensures r.Some? ==> (Get(r.value, "_id") ==
      if Truthy(GetOrNull(event, "_id")) then Get(event, "_id") else Some(Str(DefaultId(event, repr))))
    ensures r.Some? ==> forall k :: k != "source_group_id" && k != "source_event_id" && k != "event_time_utc" && k != "_id" ==>
      Get(r.value, k) == Get(event, k)
  {
    var normalised := UnwrapIds(event);
    assert GetOrNull(normalised, "event_time_utc") == GetOrNull(event, "event_time_utc");
    var eventTime := CoerceDatetime(GetOrNull(normalised, "event_time_utc"), cal);
    if eventTime.None? {
      return None;
    }
    var timed := Put(normalised, "event_time_utc", AsValue(eventTime.value));
    UnwrappedIdFields(event, normalised, timed, repr);
    assert Get(timed, "_id") == Get(event, "_id");
    assert GetOrNull(timed, "_id") == GetOrNull(event, "_id");
    var withId := FillDefaultId(timed, repr);
    forall k | k != "source_group_id" && k != "source_event_id" && k != "event_time_utc" && k != "_id"
      ensures Get(withId, k) == Get(event, k)
    {
      assert Get(withId, k) == Get(timed, k) == Get(normalised, k);
    }
    return Some(withId);
  }

  /** The default `_id` read after the ids are unwrapped is the one `DefaultId` describes. */
  lemma {:induction false} UnwrappedIdFields(event: Entries, normalised: Entries, timed: Entries, repr: Value -> string)
    requires Get(normalised, "source_group_id") ==
      if HasKey(event, "source_group_id") then Some(UnwrapNumberLong(GetOrNull(event, "source_group_id"))) else None
    requires Get(normalised, "source_event_id") ==
      if HasKey(event, "source_event_id") then Some(UnwrapNumberLong(GetOrNull(event, "source_event_id"))) else None
    requires Get(normalised, "source_type") == Get(event, "source_type")
    requires forall k :: k != "event_time_utc" ==> Get(timed, k) == Get(normalised, k)
    ensures IdFields(timed, repr) == DefaultId(event, repr)
  {
    assert Get(timed, "source_type") == Get(event, "source_type");
    assert Get(timed, "source_group_id") == Get(normalised, "source_group_id");
    assert Get(timed, "source_event_id") == Get(normalised, "source_event_id");
  }

  /** The default `_id` read from a dict whose ids are already unwrapped. */
  function IdFields(d: Entries, repr: Value -> string): string
  {
    StrOf(GetOr(d, "source_type", Str("event")), repr) + "-"
      + StrOf(GetOr(d, "source_group_id", Str("unknown")), repr) + "-"
      + StrOf(GetOr(d, "source_event_id", Str("unknown")), repr)
  }

  /** The `_id` step of `normalize_event_for_runtime`: a falsy `_id` becomes the default. */
  method FillDefaultId(d: Entries, repr: Value -> string) returns (r: Entries)
    requires UniqueKeys(d)
    ensures UniqueKeys(r)
    ensures Get(r, "_id") == if Truthy(GetOrNull(d, "_id")) then Get(d, "_id") else Some(Str(IdFields(d, repr)))
    ensures forall k :: k != "_id" ==> Get(r, k) == Get(d, k)
  {
    r := d;
    if !Truthy(GetOrNull(d, "_id")) {
      var id := StrOf(GetOr(d, "source_type", Str("event")), repr) + "-"
        + StrOf(GetOr(d, "source_group_id", Str("unknown")), repr) + "-"
        + StrOf(GetOr(d, "source_event_id", Str("unknown")), repr);
      r := Put(d, "_id", Str(id));
    } else {
      assert GetOrNull(d, "_id") != Null;
    }
  }
}
