/**
 * The field rules an event document goes through before it is written out
 * as Mongo Extended JSON: `dehydrate_event` of `dehydrate_events.py`, which
 * `dehydrate_event_document` of `update_strava_events.py` repeats line for
 * line, and the picture and source URL steps it shares with
 * `rehydrate_event_for_storage` of `utils/event_storage.py`.
 */
module EventDocument {
  import opened Wrappers
  import opened PyValue
  import opened ExtendedJson
  import Sequences

  /** A list of strings as a JSON list. */
  function Texts(ss: seq<string>): (r: seq<Value>)
    ensures |r| == |ss| && forall i :: 0 <= i < |ss| ==> r[i] == Str(ss[i])
  {
    seq(|ss|, i requires 0 <= i < |ss| => Str(ss[i]))
  }

  /**
   * The strings the picture step stores: from `event_picture_urls` when the
   * key is there, else from `event_picture_url`, else none.
   */
  function PictureUrls(d: Entries, keep: Value -> bool, repr: Value -> string): seq<string>
  {
    if HasKey(d, "event_picture_urls") then StringList(GetOrNull(d, "event_picture_urls"), keep, repr)
    else if HasKey(d, "event_picture_url") then StringList(GetOrNull(d, "event_picture_url"), keep, repr)
    else []
  }

  /** The source URL step's value: `source_url` when truthy, else `d.get("strava_url", "")`. */
  function SourceUrl(d: Entries): Value
  {
    if Truthy(GetOrNull(d, "source_url")) then GetOrNull(d, "source_url") else GetOr(d, "strava_url", Str(""))
  }

  /** The picture step reads only the two picture keys. */
  lemma {:induction false} PictureUrlsSame(a: Entries, b: Entries, keep: Value -> bool, repr: Value -> string)
    requires Get(a, "event_picture_urls") == Get(b, "event_picture_urls")
    requires Get(a, "event_picture_url") == Get(b, "event_picture_url")
    ensures PictureUrls(a, keep, repr) == PictureUrls(b, keep, repr)
  {
  }

  /** The source URL step reads only `source_url` and `strava_url`. */
  lemma {:induction false} SourceUrlSame(a: Entries, b: Entries)
    requires Get(a, "source_url") == Get(b, "source_url")
    requires Get(a, "strava_url") == Get(b, "strava_url")
    ensures SourceUrl(a) == SourceUrl(b)
  {
  }

  /** `d[k] = v`, with what every key then reads. */
  method Put(d: Entries, k: string, v: Value) returns (r: Entries)
    requires UniqueKeys(d)
    ensures UniqueKeys(r)
    ensures forall j :: Get(r, j) == if j == k then Some(v) else Get(d, j)
  {
    r := Assign(d, k, v);
    AssignUnique(d, k, v);
    forall j
      ensures Get(r, j) == if j == k then Some(v) else Get(d, j)
    {
      AssignGet(d, k, v, j);
    }
  }

  /** `d.pop(k, None)`, with what every key then reads. */
  method Pop(d: Entries, k: string) returns (r: Entries)
    requires UniqueKeys(d)
    ensures UniqueKeys(r)
    ensures forall j :: Get(r, j) == if j == k then None else Get(d, j)
  {
    r := Remove(d, k);
    RemoveUnique(d, k);
    forall j
      ensures Get(r, j) == if j == k then None else Get(d, j)
    {
      RemoveGet(d, k, j);
    }
  }

  /**
   * The picture step: `event_picture_urls` becomes a list of strings read
   * from itself, or from `event_picture_url`, which is then popped, or is
   * set to the empty list. No other key changes.
   */
  method NormalizePictures(d: Entries, keep: Value -> bool, repr: Value -> string) returns (r: Entries)
    requires UniqueKeys(d)
    ensures UniqueKeys(r)
    ensures Get(r, "event_picture_urls") == Some(List(Texts(PictureUrls(d, keep, repr))))
    ensures !HasKey(d, "event_picture_urls") && HasKey(d, "event_picture_url") ==> !HasKey(r, "event_picture_url")
    ensures HasKey(d, "event_picture_urls") || !HasKey(d, "event_picture_url") ==>
      Get(r, "event_picture_url") == Get(d, "event_picture_url")
    ensures forall k :: k != "event_picture_urls" && k != "event_picture_url" ==> Get(r, k) == Get(d, k)
  {
    if HasKey(d, "event_picture_urls") {
      var urls := StringList(GetOrNull(d, "event_picture_urls"), keep, repr);
      r := Put(d, "event_picture_urls", List(Texts(urls)));
    } else if HasKey(d, "event_picture_url") {
      var urls := StringList(GetOrNull(d, "event_picture_url"), keep, repr);
      r := Put(d, "event_picture_urls", List(Texts(urls)));
      r := Pop(r, "event_picture_url");
    } else {
      r := Put(d, "event_picture_urls", List([]));
    }
  }

  /** The source URL step: an empty or missing `source_url` is filled from `strava_url`. */
  method FillSourceUrl(d: Entries) returns (r: Entries)
    requires UniqueKeys(d)
    ensures UniqueKeys(r)
    ensures Get(r, "source_url") == Some(SourceUrl(d))
    ensures forall k :: k != "source_url" ==> Get(r, k) == Get(d, k)
  {
    r := d;
    if !Truthy(GetOrNull(d, "source_url")) {
      r := Put(d, "source_url", GetOr(d, "strava_url", Str("")));
    }
  }

  /** The wrapping step: both ids in `$numberLong`, the time in `$date`. */
  method WrapFields(d: Entries, repr: Value -> string) returns (r: Entries)
    requires UniqueKeys(d)
    ensures UniqueKeys(r)
    ensures Get(r, "source_event_id") == Some(WrapNumberLong(GetOrNull(d, "source_event_id"), repr))
    ensures Get(r, "source_group_id") == Some(WrapNumberLong(GetOrNull(d, "source_group_id"), repr))
    ensures Get(r, "event_time_utc") == Some(WrapDate(GetOrNull(d, "event_time_utc"), repr))
    ensures forall k :: k != "source_event_id" && k != "source_group_id" && k != "event_time_utc" ==>
      Get(r, k) == Get(d, k)
  {
    r := Put(d, "source_event_id", WrapNumberLong(GetOrNull(d, "source_event_id"), repr));
    r := Put(r, "source_group_id", WrapNumberLong(GetOrNull(d, "source_group_id"), repr));
    r := Put(r, "event_time_utc", WrapDate(GetOrNull(d, "event_time_utc"), repr));
  }

  /** The keys `dehydrate_event` rewrites. */
  const Rewritten: set<string> := {"raw_event", "source_event_id", "source_group_id", "event_time_utc",
                                   "event_picture_urls", "event_picture_url", "source_url"}

  /** The steps of `dehydrate_event` before the final `clean_dict`. */
  method DehydrateFields(event: Entries, repr: Value -> string) returns (d: Entries)
    requires UniqueKeys(event)
    ensures UniqueKeys(d)
    ensures !HasKey(d, "raw_event")
    ensures Get(d, "source_event_id") == Some(WrapNumberLong(GetOrNull(event, "source_event_id"), repr))
    ensures Get(d, "source_group_id") == Some(WrapNumberLong(GetOrNull(event, "source_group_id"), repr))
    ensures Get(d, "event_time_utc") == Some(WrapDate(GetOrNull(event, "event_time_utc"), repr))
    ensures Get(d, "event_picture_urls") == Some(List(Texts(PictureUrls(event, Truthy, repr))))
    ensures !HasKey(event, "event_picture_urls") && HasKey(event, "event_picture_url") ==> !HasKey(d, "event_picture_url")
    ensures HasKey(event, "event_picture_urls") || !HasKey(event, "event_picture_url") ==>
      Get(d, "event_picture_url") == Get(event, "event_picture_url")
    ensures Get(d, "source_url") == Some(SourceUrl(event))
    ensures forall k :: k !in Rewritten ==> Get(d, k) == Get(event, k)
  {
    var kept := Pop(event, "raw_event");
    assert Get(kept, "raw_event") == None;
    var wrapped := WrapFields(kept, repr);
    assert Get(wrapped, "event_picture_urls") == Get(event, "event_picture_urls");
    assert Get(wrapped, "event_picture_url") == Get(event, "event_picture_url");
    PictureUrlsSame(wrapped, event, Truthy, repr);
    SourceUrlSame(wrapped, event);
    d := FinishFields(wrapped, Truthy, repr);
    assert Get(d, "raw_event") == None;
    forall k | k !in Rewritten
      ensures Get(d, k) == Get(event, k)
    {
      assert k != "event_picture_urls" && k != "event_picture_url" && k != "source_url" && k != "raw_event";
      assert k != "source_event_id" && k != "source_group_id" && k != "event_time_utc";
      assert Get(d, k) == Get(wrapped, k) == Get(kept, k);
    }
  }

  /**
   * The picture step, then the source URL step; both `dehydrate_event` and
   * `rehydrate_event_for_storage` end with them.
   */
  method FinishFields(d: Entries, keep: Value -> bool, repr: Value -> string) returns (r: Entries)
    requires UniqueKeys(d)
    ensures UniqueKeys(r)
    ensures Get(r, "event_picture_urls") == Some(List(Texts(PictureUrls(d, keep, repr))))
    ensures !HasKey(d, "event_picture_urls") && HasKey(d, "event_picture_url") ==> !HasKey(r, "event_picture_url")
    ensures HasKey(d, "event_picture_urls") || !HasKey(d, "event_picture_url") ==>
      Get(r, "event_picture_url") == Get(d, "event_picture_url")
    ensures Get(r, "source_url") == Some(SourceUrl(d))
    ensures forall k :: k != "event_picture_urls" && k != "event_picture_url" && k != "source_url" ==>
      Get(r, k) == Get(d, k)
  {
    var pictures := NormalizePictures(d, keep, repr);
    SourceUrlSame(pictures, d);
    r := FillSourceUrl(pictures);
    if !HasKey(d, "event_picture_urls") && HasKey(d, "event_picture_url") {
      assert Get(r, "event_picture_url") == None;
    }
  }

  /**
   * `dehydrate_event`: drop `raw_event`, wrap both ids in `$numberLong` and
   * the time in `$date`, turn the picture fields into a list of strings
   * (falsy items dropped), fill an empty source URL, and clean the result.
   * The output holds no `None` in it or in a nested dict (dicts inside lists
   * are not cleaned) and no `raw_event`; an id or
   * time that was `None` or missing is absent; `event_picture_urls` is
   * always a list; every other key reads what cleaning makes of the input.
   */
  method DehydrateEvent(event: Entries, repr: Value -> string) returns (r: Entries)
    requires UniqueKeys(event)
    ensures IsClean(r) && UniqueKeys(r)
    ensures !HasKey(r, "raw_event")
    ensures Get(r, "source_event_id") == CleanValue(WrapNumberLong(GetOrNull(event, "source_event_id"), repr))
    ensures Get(r, "source_group_id") == CleanValue(WrapNumberLong(GetOrNull(event, "source_group_id"), repr))
    ensures Get(r, "event_time_utc") == CleanValue(WrapDate(GetOrNull(event, "event_time_utc"), repr))
    ensures Get(r, "event_picture_urls") == CleanValue(List(Texts(PictureUrls(event, Truthy, repr))))
    ensures Get(r, "event_picture_urls").Some? && Get(r, "event_picture_urls").value.List?
    ensures !HasKey(event, "event_picture_urls") && HasKey(event, "event_picture_url") ==> !HasKey(r, "event_picture_url")
    ensures HasKey(event, "event_picture_urls") || !HasKey(event, "event_picture_url") ==>
      Get(r, "event_picture_url") == CleanGet(event, "event_picture_url")
    ensures Get(r, "source_url") == CleanValue(SourceUrl(event))
    ensures forall k :: k !in Rewritten ==> Get(r, k) == CleanGet(event, k)
  {
    var d := DehydrateFields(event, repr);
    r := CleanDict(d);
    CleanedClean(d);
    CleanedGet(d, "raw_event");
    CleanedGet(d, "source_event_id");
    CleanedGet(d, "source_group_id");
    CleanedGet(d, "event_time_utc");
    CleanedGet(d, "event_picture_urls");
    CleanedGet(d, "event_picture_url");
    CleanedGet(d, "source_url");
    forall k | k !in Rewritten
      ensures Get(r, k) == CleanGet(event, k)
    {
      CleanedGet(d, k);
      assert Get(d, k) == Get(event, k);
    }
    assert Get(r, "raw_event") == None;
    CleanedList(Texts(PictureUrls(event, Truthy, repr)));
    if !HasKey(event, "event_picture_urls") && HasKey(event, "event_picture_url") {
      assert Get(d, "event_picture_url") == None;
      assert Get(r, "event_picture_url") == None;
    }
  }

  /** A list survives cleaning as a list. */
  lemma {:induction false} CleanedList(items: seq<Value>)
    ensures CleanValue(List(items)).Some? && CleanValue(List(items)).value.List?
  {
  }

  /** A non-dict id survives cleaning as its `$numberLong` wrapper. */
  lemma {:induction false} WrappedIdKept(v: Value, repr: Value -> string)
    requires !v.Null? && !v.Dict?
    ensures CleanValue(WrapNumberLong(v, repr)) == Some(Dict([("$numberLong", Str(StrOf(v, repr)))]))
  {
    var entries := [("$numberLong", Str(StrOf(v, repr)))];
    assert CleanInto([], entries) == CleanInto([("$numberLong", Str(StrOf(v, repr)))], []);
  }
}
