/**
 * The merge of freshly fetched Strava events into the stored event list
 * (`update_strava_events.py`). Each Strava event is identified by a key: its
 * Strava id, else its URL, else its `_id`. Stored events are indexed by that
 * key; a fetched event with a known key has its fields merged into the
 * stored one (an empty value never overwrites a non-empty one), a new key
 * adds the event, and events without a key pass through. The result is
 * ordered by event time, events whose time does not parse last.
 *
 * Parsing an ISO time is library behaviour: it comes in as `parse`, which
 * maps the text to microseconds since the Unix epoch in UTC (a naive time
 * taken as UTC), `None` where `datetime.fromisoformat` raises.
 */
module StravaEvents {
  import opened Wrappers
  import opened Text
  import opened PyValue
  import Sequences

  /** `datetime(9999, 12, 31, tzinfo=utc)` in microseconds since the Unix epoch. */
  const FarFuture: int := 253402214400000000

  // ------------------------------------------------------------------ emptiness

  /**
   * `_is_empty_value`: `None`, "" and an empty list or dict. Every empty
   * value is falsy, but the falsy scalars `False`, 0 and 0.0 are not empty.
   */
  function IsEmptyValue(v: Value): (r: bool)
    ensures r ==> !Truthy(v)
    ensures !r && !Truthy(v) ==> v.Bool? || v.Int? || v.Float?
    ensures v.Bool? || v.Int? || v.Float? ==> !r
  {
    match v
    case Null => true
    case Str(s) => s == ""
    case List(items) => |items| == 0
    case Dict(entries) => |entries| == 0
    case _ => false
  }

  // ------------------------------------------------------------------ event key

  /** The Strava id of an event, taken out of a `$numberLong` or `$oid` wrapper. */
  function IdOf(event: Entries): Value
  {
    var id := GetOrNull(event, "source_event_id");
    if id.Dict? then Or(GetOrNull(id.entries, "$numberLong"), GetOrNull(id.entries, "$oid")) else id
  }

  /** `event.get('strava_url') or event.get('source_url') or ''`. */
  function UrlOf(event: Entries): Value
  {
    Or(Or(GetOrNull(event, "strava_url"), GetOrNull(event, "source_url")), Str(""))
  }

  /**
   * `_strava_event_key`: `None` for an event that is not from Strava, else
   * "id:" and the id when it is truthy, else "url:" and the stripped URL
   * when that is not empty, else "_id:" and a truthy `_id`, else `None`. A
   * truthy URL that is not text makes `.strip()` raise `AttributeError`,
   * which is the `Failure` here. A key is never empty.
   */
  function StravaEventKey(event: Entries, repr: Value -> string): (r: Result<Option<string>, string>)
    ensures r.Success? && r.value.Some? ==> GetOrNull(event, "source_type") == Str("strava") && r.value.value != []
    ensures GetOrNull(event, "source_type") != Str("strava") ==> r == Success(None)
    ensures GetOrNull(event, "source_type") == Str("strava") && Truthy(IdOf(event))
      ==> r == Success(Some("id:" + StrOf(IdOf(event), repr)))
    ensures r.Failure? <==> GetOrNull(event, "source_type") == Str("strava") && !Truthy(IdOf(event)) && !UrlOf(event).Str?
    ensures GetOrNull(event, "source_type") == Str("strava") && !Truthy(IdOf(event))
      && UrlOf(event).Str? && PyStrip(UrlOf(event).s) != ""
      ==> r == Success(Some("url:" + PyStrip(UrlOf(event).s)))
    ensures GetOrNull(event, "source_type") == Str("strava") && !Truthy(IdOf(event))
      && UrlOf(event).Str? && PyStrip(UrlOf(event).s) == "" && Truthy(GetOrNull(event, "_id"))
      ==> r == Success(Some("_id:" + StrOf(GetOrNull(event, "_id"), repr)))
    ensures GetOrNull(event, "source_type") == Str("strava") && r == Success(None)
      ==> !Truthy(IdOf(event)) && UrlOf(event).Str? && PyStrip(UrlOf(event).s) == "" && !Truthy(GetOrNull(event, "_id"))
  {
    if GetOrNull(event, "source_type") != Str("strava") then Success(None)
    else if Truthy(IdOf(event)) then Success(Some("id:" + StrOf(IdOf(event), repr)))
    else if !UrlOf(event).Str? then Failure("AttributeError")
    else
      var url := PyStrip(UrlOf(event).s);
      if url != "" then Success(Some("url:" + url))
      else if Truthy(GetOrNull(event, "_id")) then Success(Some("_id:" + StrOf(GetOrNull(event, "_id"), repr)))
      else Success(None)
  }

  /**
   * An id key is never shared with a URL key or an `_id` key: two events
   * with the same key both have a truthy id with the same text, or neither
   * has.
   */
  lemma {:induction false} IdKeysMatchOnlyIds(a: Entries, b: Entries, repr: Value -> string, k: string)
    requires StravaEventKey(a, repr) == Success(Some(k)) && StravaEventKey(b, repr) == Success(Some(k))
    ensures Truthy(IdOf(a)) <==> Truthy(IdOf(b))
    ensures Truthy(IdOf(a)) ==> StrOf(IdOf(a), repr) == StrOf(IdOf(b), repr)
  {
    KeyShape(a, repr, k);
    KeyShape(b, repr, k);
    if Truthy(IdOf(a)) {
      assert StrOf(IdOf(a), repr) == k[3..] == StrOf(IdOf(b), repr);
    }
  }

  /** An id key starts with 'i', a URL key with 'u' and an `_id` key with '_'. */
  lemma {:induction false} KeyShape(e: Entries, repr: Value -> string, k: string)
    requires StravaEventKey(e, repr) == Success(Some(k))
    ensures |k| >= 3 && (Truthy(IdOf(e)) <==> k[0] == 'i')
    ensures k[0] == 'u' <==> !Truthy(IdOf(e)) && UrlOf(e).Str? && PyStrip(UrlOf(e).s) != ""
    ensures Truthy(IdOf(e)) ==> k[3..] == StrOf(IdOf(e), repr)
  {
    if Truthy(IdOf(e)) {
      var id := StrOf(IdOf(e), repr);
      assert k == "id:" + id;
      assert k[3..] == id;
    } else {
      var url := PyStrip(UrlOf(e).s);
      if url != "" {
        assert k == "url:" + url;
      } else {
        assert k == "_id:" + StrOf(GetOrNull(e, "_id"), repr);
      }
    }
  }

  /**
   * Wrapping a Strava id in `$numberLong`, as the stored copy holds it,
   * keeps the key: a stored event and a fresh copy of it are matched.
   */
  lemma {:induction false} KeySurvivesWrapping(event: Entries, n: int, repr: Value -> string)
    requires GetOrNull(event, "source_type") == Str("strava")
    requires Get(event, "source_event_id") == Some(Int(n)) && n != 0
    ensures var entries := [("$numberLong", Str(IntToString(n)))];
      StravaEventKey(Assign(event, "source_event_id", Dict(entries)), repr) == StravaEventKey(event, repr)
      == Success(Some("id:" + IntToString(n)))
  {
    var entries := [("$numberLong", Str(IntToString(n)))];
    var stored := Assign(event, "source_event_id", Dict(entries));
    AssignGet(event, "source_event_id", Dict(entries), "source_event_id");
    AssignGet(event, "source_event_id", Dict(entries), "source_type");
    assert GetOrNull(entries, "$numberLong") == Str(IntToString(n));
    assert IdOf(stored) == Str(IntToString(n));
    assert IdOf(event) == Int(n) && Truthy(IdOf(event));
    assert GetOrNull(stored, "source_type") == Str("strava");
    assert StravaEventKey(event, repr) == Success(Some("id:" + IntToString(n)));
  }

  // ------------------------------------------------------------------ time key

  /**
   * `_event_time_sort_key`: the time of an event (the `$date` of a dict),
   * when it is text that parses after "Z" is replaced by "+00:00"; every
   * other event sorts at the far-future sentinel.
   */
  function EventTimeSortKey(event: Entries, parse: string -> Option<int>): (r: int)
    ensures var raw := GetOrNull(event, "event_time_utc");
      var t := if raw.Dict? then GetOrNull(raw.entries, "$date") else raw;
      r == FarFuture || (t.Str? && parse(ReplaceAll(t.s, "Z", "+00:00")) == Some(r))
    ensures var raw := GetOrNull(event, "event_time_utc");
      var t := if raw.Dict? then GetOrNull(raw.entries, "$date") else raw;
      !t.Str? ==> r == FarFuture
    ensures var raw := GetOrNull(event, "event_time_utc");
      var t := if raw.Dict? then GetOrNull(raw.entries, "$date") else raw;
      t.Str? && parse(ReplaceAll(t.s, "Z", "+00:00")).Some? ==> r == parse(ReplaceAll(t.s, "Z", "+00:00")).value
  {
    var raw := GetOrNull(event, "event_time_utc");
    var t := if raw.Dict? then GetOrNull(raw.entries, "$date") else raw;
    if !t.Str? then FarFuture
    else
      var parsed := parse(ReplaceAll(t.s, "Z", "+00:00"));
      if parsed.Some? then parsed.value else FarFuture
  }

  /** The sort key as a function of the event. */
  function TimeKey(parse: string -> Option<int>): Entries -> int
  {
    event => EventTimeSortKey(event, parse)
  }

  // ------------------------------------------------------------------ merging fields

  /** An incoming value is skipped when it is empty and the stored one is not (never for `raw_event`). */
  predicate Skipped(existing: Entries, k: string, v: Value)
  {
    k != "raw_event" && IsEmptyValue(v) && !IsEmptyValue(GetOrNull(existing, k))
  }

  /** The loop of `_merge_event_fields` over the entries `incoming`, starting from `acc`. */
  function MergeInto(acc: Entries, existing: Entries, incoming: Entries): Entries
    decreases |incoming|
  {
    if incoming == [] then acc
    else
      var (k, v) := incoming[0];
      MergeInto(if Skipped(existing, k, v) then acc else Assign(acc, k, v), existing, incoming[1..])
  }

  /** `_merge_event_fields(existing, incoming)`. */
  function MergedFields(existing: Entries, incoming: Entries): Entries
  {
    MergeInto(existing, existing, incoming)
  }

  /**
   * The value the merge gives a key: the incoming value unless it is
   * skipped or absent, and the stored value otherwise.
   */
  function MergeGet(existing: Entries, incoming: Entries, k: string): Option<Value>
  {
    if HasKey(incoming, k) && !Skipped(existing, k, GetOrNull(incoming, k)) then Get(incoming, k) else Get(existing, k)
  }

  lemma {:induction false} MergeIntoGet(acc: Entries, existing: Entries, incoming: Entries, k: string)
    requires UniqueKeys(incoming)
    ensures Get(MergeInto(acc, existing, incoming), k) ==
      if HasKey(incoming, k) && !Skipped(existing, k, GetOrNull(incoming, k)) then Get(incoming, k) else Get(acc, k)
    decreases |incoming|
  {
    if incoming != [] {
      var (j, v) := incoming[0];
      var next := if Skipped(existing, j, v) then acc else Assign(acc, j, v);
      MergeIntoGet(next, existing, incoming[1..], k);
      AssignGet(acc, j, v, k);
      if j == k {
        assert !HasKey(incoming[1..], k) by {
          forall i | 0 <= i < |incoming[1..]|
            ensures incoming[1..][i].0 != k
          {
            assert incoming[1..][i] == incoming[i + 1];
          }
        }
      } else {
        assert HasKey(incoming, k) <==> HasKey(incoming[1..], k) by {
          if HasKey(incoming, k) {
            var i :| 0 <= i < |incoming| && incoming[i].0 == k;
            assert incoming[1..][i - 1] == incoming[i];
          }
          if HasKey(incoming[1..], k) {
            var i :| 0 <= i < |incoming[1..]| && incoming[1..][i].0 == k;
            assert incoming[i + 1] == incoming[1..][i];
          }
        }
      }
    }
  }

  /** Every key of the merge holds the value `MergeGet` names. */
  lemma {:induction false} MergedGet(existing: Entries, incoming: Entries, k: string)
    requires UniqueKeys(incoming)
    ensures Get(MergedFields(existing, incoming), k) == MergeGet(existing, incoming, k)
  {
    MergeIntoGet(existing, existing, incoming, k);
  }

  /** The merge holds exactly the keys of both documents. */
  lemma {:induction false} MergedKeys(existing: Entries, incoming: Entries, k: string)
    requires UniqueKeys(incoming)
    ensures HasKey(MergedFields(existing, incoming), k) <==> HasKey(existing, k) || HasKey(incoming, k)
  {
    MergedGet(existing, incoming, k);
  }

  /** A non-empty stored value is never replaced by an empty one, except under `raw_event`. */
  lemma {:induction false} MergeKeepsNonEmpty(existing: Entries, incoming: Entries, k: string)
    requires UniqueKeys(incoming)
    requires k != "raw_event" && !IsEmptyValue(GetOrNull(existing, k))
    ensures var m := Get(MergedFields(existing, incoming), k); m.Some? && !IsEmptyValue(m.value)
  {
    MergedGet(existing, incoming, k);
  }

  /** `raw_event` always comes from the incoming event when it has one, even an empty one. */
  lemma {:induction false} MergeTakesRawEvent(existing: Entries, incoming: Entries)
    requires UniqueKeys(incoming) && HasKey(incoming, "raw_event")
    ensures Get(MergedFields(existing, incoming), "raw_event") == Get(incoming, "raw_event")
  {
    MergedGet(existing, incoming, "raw_event");
  }

  /** The merge of two dicts is a dict. */
  lemma {:induction false} MergeIntoUnique(acc: Entries, existing: Entries, incoming: Entries)
    requires UniqueKeys(acc)
    ensures UniqueKeys(MergeInto(acc, existing, incoming))
    decreases |incoming|
  {
    if incoming != [] {
      var (k, v) := incoming[0];
      if !Skipped(existing, k, v) {
        AssignUnique(acc, k, v);
      }
      MergeIntoUnique(if Skipped(existing, k, v) then acc else Assign(acc, k, v), existing, incoming[1..]);
    }
  }

  /** `_merge_event_fields`: a copy of `existing` updated entry by entry from `incoming`. */
  method MergeEventFields(existing: Entries, incoming: Entries) returns (merged: Entries)
    ensures merged == MergedFields(existing, incoming)
  {
    merged := existing;
    for i := 0 to |incoming|
      invariant MergeInto(merged, existing, incoming[i..]) == MergedFields(existing, incoming)
    {
      assert incoming[i..][1..] == incoming[i + 1..];
      var (key, newValue) := incoming[i];
      if key == "raw_event" {
        merged := Assign(merged, key, newValue);
        continue;
      }
      var currentValue := GetOrNull(existing, key);
      if IsEmptyValue(newValue) && !IsEmptyValue(currentValue) {
        continue;
      }
      merged := Assign(merged, key, newValue);
    }
  }

  // ------------------------------------------------------------------ merging events

  /** The key of an event as the merge computes it. */
  type KeyFn = Entries -> Result<Option<string>, string>

  /** `_strava_event_key` as a key function. */
  function StravaKey(repr: Value -> string): KeyFn
  {
    event => StravaEventKey(event, repr)
  }

  /** The entries of a stored dict value. */
  function EntriesOf(v: Value): Entries
  {
    if v.Dict? then v.entries else []
  }

  /** The event passes through unindexed. */
  predicate Unkeyed(event: Entries, key: KeyFn)
  {
    key(event) == Success(None)
  }

  /** Computing the key of the event does not raise. */
  predicate Keyable(event: Entries, key: KeyFn)
  {
    key(event).Success?
  }

  /** The events without a key, in order. */
  function SetAside(events: seq<Entries>, key: KeyFn): seq<Entries>
  {
    if events == [] then []
    else SetAside(events[..|events| - 1], key) + (if Unkeyed(events[|events| - 1], key) then [events[|events| - 1]] else [])
  }

  /** `strava_events[key] = event` for a stored event with a key. */
  function File(table: Entries, event: Entries, key: KeyFn): Entries
  {
    var found := key(event);
    if found.Success? && found.value.Some? then Assign(table, found.value.value, Dict(event)) else table
  }

  /** The first loop of `_merge_events`: each stored event with a key is filed under it, the last one winning. */
  function IndexStored(table: Entries, events: seq<Entries>, key: KeyFn): Entries
  {
    if events == [] then table
    else File(IndexStored(table, events[..|events| - 1], key), events[|events| - 1], key)
  }

  /** The event filed under `k` after `incoming` arrives: merged into the one filed before, if any. */
  function Arrive(table: Entries, k: string, incoming: Entries): Entries
  {
    if HasKey(table, k) then MergedFields(EntriesOf(GetOrNull(table, k)), incoming) else incoming
  }

  /** What a fresh event with a key does to the table. */
  function Admit(table: Entries, event: Entries, key: KeyFn): Entries
  {
    var found := key(event);
    if found.Success? && found.value.Some? then Assign(table, found.value.value, Dict(Arrive(table, found.value.value, event)))
    else table
  }

  /** The second loop of `_merge_events` over the fresh events. */
  function MergeFresh(table: Entries, events: seq<Entries>, key: KeyFn): Entries
  {
    if events == [] then table
    else Admit(MergeFresh(table, events[..|events| - 1], key), events[|events| - 1], key)
  }

  /** `strava_events.values()`. */
  function TableEvents(table: Entries): (r: seq<Entries>)
    ensures |r| == |table|
    ensures forall i :: 0 <= i < |table| ==> r[i] == EntriesOf(table[i].1)
  {
    seq(|table|, i requires 0 <= i < |table| => EntriesOf(table[i].1))
  }

  /** The events `_merge_events` gathers before it sorts them. */
  function Gathered(existing: seq<Entries>, incoming: seq<Entries>, key: KeyFn): seq<Entries>
  {
    SetAside(existing, key) + SetAside(incoming, key) + TableEvents(MergeFresh(IndexStored([], existing, key), incoming, key))
  }

  /** `_merge_events(existing, incoming)` when no key raises. */
  function MergedEvents(existing: seq<Entries>, incoming: seq<Entries>, key: KeyFn, parse: string -> Option<int>): seq<Entries>
  {
    Sequences.SortByKey(Gathered(existing, incoming, key), TimeKey(parse))
  }

  /** Every event of `events` is `Keyable`. */
  predicate AllKeyable(events: seq<Entries>, key: KeyFn)
  {
    forall e :: e in events ==> Keyable(e, key)
  }

  /** The first `i` events are `Keyable`. */
  predicate KeyableUpTo(events: seq<Entries>, i: nat, key: KeyFn)
    requires i <= |events|
  {
    i == 0 || (KeyableUpTo(events, i - 1, key) && Keyable(events[i - 1], key))
  }

  lemma {:induction false} AllKeyableUpTo(events: seq<Entries>, i: nat, key: KeyFn)
    requires i <= |events| && KeyableUpTo(events, i, key)
    ensures AllKeyable(events[..i], key)
  {
    if i > 0 {
      AllKeyableUpTo(events, i - 1, key);
      assert forall e :: e in events[..i] ==> e == events[i - 1] || e in events[..i - 1];
    }
  }

  /** The first loop of `_merge_events`: index the stored events, or set aside those without a key. */
  method IndexStoredEvents(events: seq<Entries>, key: KeyFn)
    returns (ok: bool, unkeyed: seq<Entries>, table: Entries)
    ensures ok <==> AllKeyable(events, key)
    ensures ok ==> unkeyed == SetAside(events, key) && table == IndexStored([], events, key)
  {
    unkeyed, table := [], [];
    for i := 0 to |events|
      invariant KeyableUpTo(events, i, key)
      invariant unkeyed == SetAside(events[..i], key)
      invariant table == IndexStored([], events[..i], key)
    {
      assert events[..i + 1][..i] == events[..i];
      var found := key(events[i]);
      if found.Failure? {
        assert events[i] in events;
        return false, unkeyed, table;
      }
      if found.value.Some? {
        table := Assign(table, found.value.value, Dict(events[i]));
      } else {
        unkeyed := unkeyed + [events[i]];
      }
    }
    assert events[..|events|] == events;
    AllKeyableUpTo(events, |events|, key);
    ok := true;
  }

  /** A fresh event with the key `k`: merged into the event filed under `k`, or filed. */
  method AdmitEvent(table: Entries, event: Entries, k: string, ghost key: KeyFn) returns (r: Entries)
    requires key(event) == Success(Some(k))
    ensures r == Admit(table, event, key)
  {
    if HasKey(table, k) {
      var merged := MergeEventFields(EntriesOf(GetOrNull(table, k)), event);
      r := Assign(table, k, Dict(merged));
    } else {
      r := Assign(table, k, Dict(event));
    }
  }

  /** The second loop of `_merge_events`: merge or file the fresh events, or set aside those without a key. */
  method MergeFreshEvents(table0: Entries, events: seq<Entries>, key: KeyFn)
    returns (ok: bool, unkeyed: seq<Entries>, table: Entries)
    ensures ok <==> AllKeyable(events, key)
    ensures ok ==> unkeyed == SetAside(events, key) && table == MergeFresh(table0, events, key)
  {
    unkeyed, table := [], table0;
    for i := 0 to |events|
      invariant KeyableUpTo(events, i, key)
      invariant unkeyed == SetAside(events[..i], key)
      invariant table == MergeFresh(table0, events[..i], key)
    {
      assert events[..i + 1][..i] == events[..i];
      var found := key(events[i]);
      if found.Failure? {
        assert events[i] in events;
        return false, unkeyed, table;
      }
      if found.value.Some? {
        table := AdmitEvent(table, events[i], found.value.value, key);
      } else {
        unkeyed := unkeyed + [events[i]];
      }
    }
    assert events[..|events|] == events;
    AllKeyableUpTo(events, |events|, key);
    ok := true;
  }

  /**
   * `_merge_events`: `Failure` exactly when the key of some event raises;
   * otherwise the merged list, sorted by event time.
   */
  method MergeEvents(existing: seq<Entries>, incoming: seq<Entries>, repr: Value -> string, parse: string -> Option<int>)
    returns (r: Result<seq<Entries>, string>)
    ensures r.Success? <==> AllKeyable(existing, StravaKey(repr)) && AllKeyable(incoming, StravaKey(repr))
    ensures r.Success? ==> r.value == MergedEvents(existing, incoming, StravaKey(repr), parse)
  {
    var key := StravaKey(repr);
    var ok1, kept, table := IndexStoredEvents(existing, key);
    if !ok1 {
      return Failure("AttributeError");
    }
    var ok2, arrived, table2 := MergeFreshEvents(table, incoming, key);
    if !ok2 {
      return Failure("AttributeError");
    }
    var merged := kept + arrived + TableEvents(table2);
    return Success(Sequences.SortByKey(merged, TimeKey(parse)));
  }

  // ------------------------------------------------------------------ properties of the merge

  /** The result is ordered by event time, and events with equal times keep their gathered order. */
  lemma {:induction false} MergedEventsOrdered(existing: seq<Entries>, incoming: seq<Entries>, key: KeyFn,
                            parse: string -> Option<int>, t: int)
    ensures Sequences.SortedBy(MergedEvents(existing, incoming, key, parse), TimeKey(parse))
    ensures Sequences.WithKey(MergedEvents(existing, incoming, key, parse), TimeKey(parse), t)
         == Sequences.WithKey(Gathered(existing, incoming, key), TimeKey(parse), t)
  {
    Sequences.SortByKeySorted(Gathered(existing, incoming, key), TimeKey(parse));
    Sequences.SortByKeyStable(Gathered(existing, incoming, key), TimeKey(parse), t);
  }

  /** An event whose time does not parse comes after every event whose time parses to an earlier instant. */
  lemma {:induction false} UnparsedTimesLast(existing: seq<Entries>, incoming: seq<Entries>, key: KeyFn,
                          parse: string -> Option<int>, i: nat, j: nat)
    requires var r := MergedEvents(existing, incoming, key, parse);
      i < |r| && j < |r| && EventTimeSortKey(r[i], parse) == FarFuture && EventTimeSortKey(r[j], parse) < FarFuture
    ensures j < i
  {
    Sequences.SortByKeySorted(Gathered(existing, incoming, key), TimeKey(parse));
    var r := MergedEvents(existing, incoming, key, parse);
    assert TimeKey(parse)(r[i]) == FarFuture && TimeKey(parse)(r[j]) < FarFuture;
  }

  /** Every event without a key is set aside. */
  lemma {:induction false} SetAsideKeeps(events: seq<Entries>, key: KeyFn)
    ensures forall e :: e in events && Unkeyed(e, key) ==> e in SetAside(events, key)
  {
    if events != [] {
      var n := |events| - 1;
      SetAsideKeeps(events[..n], key);
      assert forall e :: e in events ==> e == events[n] || e in events[..n];
    }
  }

  /**
   * The merge only reorders what it gathers, and every event without a
   * key, stored or fresh, is in the result.
   */
  lemma {:induction false} MergedEventsPermutation(existing: seq<Entries>, incoming: seq<Entries>, key: KeyFn,
                                parse: string -> Option<int>)
    ensures multiset(MergedEvents(existing, incoming, key, parse)) == multiset(Gathered(existing, incoming, key))
    ensures forall e :: e in existing && Unkeyed(e, key) ==> e in MergedEvents(existing, incoming, key, parse)
    ensures forall e :: e in incoming && Unkeyed(e, key) ==> e in MergedEvents(existing, incoming, key, parse)
  {
    var g := Gathered(existing, incoming, key);
    Sequences.SortByKeyPermutation(g, TimeKey(parse));
    SetAsideKeeps(existing, key);
    SetAsideKeeps(incoming, key);
    forall e | (e in existing || e in incoming) && Unkeyed(e, key)
      ensures e in MergedEvents(existing, incoming, key, parse)
    {
      assert e in g;
      assert e in multiset(g);
    }
  }

  /** Some event of `events` has the key `k`. */
  predicate Carries(events: seq<Entries>, key: KeyFn, k: string)
  {
    exists e :: e in events && key(e) == Success(Some(k))
  }

  lemma {:induction false} CarriesPrefix(events: seq<Entries>, key: KeyFn, k: string)
    requires events != []
    ensures Carries(events, key, k) <==>
      Carries(events[..|events| - 1], key, k) || key(events[|events| - 1]) == Success(Some(k))
  {
    var n := |events| - 1;
    assert forall e :: e in events <==> e == events[n] || e in events[..n];
  }

  /** Indexing files each key once, and exactly the keys of the stored events. */
  lemma {:induction false} IndexStoredKeys(table: Entries, events: seq<Entries>, key: KeyFn, k: string)
    requires UniqueKeys(table)
    ensures UniqueKeys(IndexStored(table, events, key))
    ensures HasKey(IndexStored(table, events, key), k) <==> HasKey(table, k) || Carries(events, key, k)
  {
    if events != [] {
      var n := |events| - 1;
      var before := IndexStored(table, events[..n], key);
      IndexStoredKeys(table, events[..n], key, k);
      CarriesPrefix(events, key, k);
      var found := key(events[n]);
      if found.Success? && found.value.Some? {
        AssignUnique(before, found.value.value, Dict(events[n]));
        AssignGet(before, found.value.value, Dict(events[n]), k);
      }
    }
  }

  /** Merging the fresh events files each key once, and adds exactly the keys of the fresh events. */
  lemma {:induction false} MergeFreshKeys(table: Entries, events: seq<Entries>, key: KeyFn, k: string)
    requires UniqueKeys(table)
    ensures UniqueKeys(MergeFresh(table, events, key))
    ensures HasKey(MergeFresh(table, events, key), k) <==> HasKey(table, k) || Carries(events, key, k)
  {
    if events != [] {
      var n := |events| - 1;
      var before := MergeFresh(table, events[..n], key);
      MergeFreshKeys(table, events[..n], key, k);
      CarriesPrefix(events, key, k);
      var found := key(events[n]);
      if found.Success? && found.value.Some? {
        var v := Dict(Arrive(before, found.value.value, events[n]));
        AssignUnique(before, found.value.value, v);
        AssignGet(before, found.value.value, v, k);
      }
    }
  }

  /**
   * The Strava events of the result: one per key, and one for every key
   * that a stored or a fresh event carries.
   */
  lemma {:induction false} OneEventPerKey(existing: seq<Entries>, incoming: seq<Entries>, key: KeyFn, k: string)
    ensures UniqueKeys(MergeFresh(IndexStored([], existing, key), incoming, key))
    ensures HasKey(MergeFresh(IndexStored([], existing, key), incoming, key), k) <==>
      Carries(existing, key, k) || Carries(incoming, key, k)
  {
    IndexStoredKeys([], existing, key, k);
    MergeFreshKeys(IndexStored([], existing, key), incoming, key, k);
  }

  /** A key that no fresh event carries keeps the event filed under it. */
  lemma {:induction false} MergeFreshUntouched(table: Entries, events: seq<Entries>, key: KeyFn, k: string)
    requires !Carries(events, key, k)
    ensures Get(MergeFresh(table, events, key), k) == Get(table, k)
  {
    if events != [] {
      var n := |events| - 1;
      var before := MergeFresh(table, events[..n], key);
      CarriesPrefix(events, key, k);
      MergeFreshUntouched(table, events[..n], key, k);
      var found := key(events[n]);
      if found.Success? && found.value.Some? {
        AssignGet(before, found.value.value, Dict(Arrive(before, found.value.value, events[n])), k);
      }
    }
  }

  /**
   * A fresh event whose key is new, and carried by no other fresh event,
   * is filed as it is; one whose key is already filed, and carried by no
   * later fresh event, is merged into the event filed before it.
   */
  lemma {:induction false} MergeFreshFiles(table: Entries, events: seq<Entries>, key: KeyFn, k: string)
    requires events != [] && key(events[|events| - 1]) == Success(Some(k))
    ensures var before := MergeFresh(table, events[..|events| - 1], key);
      Get(MergeFresh(table, events, key), k) == Some(Dict(Arrive(before, k, events[|events| - 1])))
    ensures !HasKey(table, k) && !Carries(events[..|events| - 1], key, k) ==>
      Get(MergeFresh(table, events, key), k) == Some(Dict(events[|events| - 1]))
  {
    var n := |events| - 1;
    var before := MergeFresh(table, events[..n], key);
    AssignGet(before, k, Dict(Arrive(before, k, events[n])), k);
    if !HasKey(table, k) && !Carries(events[..n], key, k) {
      MergeFreshUntouched(table, events[..n], key, k);
    }
  }
}
