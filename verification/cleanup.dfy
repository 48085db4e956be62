/**
 * `cleanup_events.py`: stored Strava events of the regularly synced groups
 * are pruned once their time is before a cutoff; every other event is kept.
 *
 * Times are microseconds since the Unix epoch in UTC. Turning a timestamp
 * or an ISO text into a time is library behaviour and comes in as a
 * `Clock`.
 */
module Cleanup {
  import opened Wrappers
  import opened Text
  import opened PyValue
  import opened ExtendedJson
  import opened Sequences

  /** The Strava groups whose old events are removed. */
  const StravaGroupIds: set<int> := {265, 1047313, 1115522, 908336}

  /**
   * `datetime.fromtimestamp(x, tz=utc)`, and `datetime.fromisoformat`
   * followed by the conversion to UTC (a naive result taken as UTC), `None`
   * where it raises `ValueError`.
   */
  datatype Clock = Clock(fromTimestamp: real -> int, fromIso: string -> Option<int>)

  /**
   * `parse_number_long`: the value of a `$numberLong` (checked first) or
   * `$numberInt` wrapper, or the value itself, as `int()` reads it; `None`
   * for `None`, for a dict with neither key and where `int()` would fail.
   */
  function ParseNumberLong(v: Value): (r: Option<int>)
    ensures v.Null? ==> r.None?
    ensures v.Dict? && !HasKey(v.entries, "$numberLong") && !HasKey(v.entries, "$numberInt") ==> r.None?
    ensures v.Bool? ==> r == Some(if v.b then 1 else 0)
    ensures v.Int? ==> r == Some(v.i)
    ensures v.Float? ==> r == Some(Truncate(v.f))
    ensures v.Str? ==> r == ParseInt(v.s)
    ensures v.Dict? && HasKey(v.entries, "$numberLong") ==> r == ToInt(GetOrNull(v.entries, "$numberLong"))
    ensures v.Dict? && !HasKey(v.entries, "$numberLong") && HasKey(v.entries, "$numberInt")
      ==> r == ToInt(GetOrNull(v.entries, "$numberInt"))
  {
    if v.Null? then None
    else if v.Dict? then
      if HasKey(v.entries, "$numberLong") then ToInt(GetOrNull(v.entries, "$numberLong"))
      else if HasKey(v.entries, "$numberInt") then ToInt(GetOrNull(v.entries, "$numberInt"))
      else None
    else ToInt(v)
  }

  /** An id wrapped in `$numberLong` for storage reads back as the same integer. */
  lemma {:induction false} ParseWrappedId(n: int, repr: Value -> string)
    ensures ParseNumberLong(WrapNumberLong(Int(n), repr)) == Some(n)
  {
    var w := WrapNumberLong(Int(n), repr);
    assert w.Dict? && HasKey(w.entries, "$numberLong");
    assert GetOrNull(w.entries, "$numberLong") == Str(IntToString(n));
    ParseIntToString(n);
  }

  /** `$numberLong` wins over `$numberInt` when a dict holds both. */
  lemma {:induction false} NumberLongFirst(long: Value, int32: Value)
    ensures var entries := [("$numberInt", int32), ("$numberLong", long)];
      ParseNumberLong(Dict(entries)) == ToInt(long)
  {
    var entries := [("$numberInt", int32), ("$numberLong", long)];
    assert entries[1].0 == "$numberLong";
    assert Get(entries, "$numberLong") == Some(long);
  }

  /**
   * `parse_event_datetime`: the `$date` of a dict is taken first; a number
   * (a bool counts as one) is a Unix timestamp; anything else is read as
   * text, stripped, with a final "Z" replaced by "+00:00", and parsed.
   * `None` for `None`, for blank text and for text that does not parse.
   */
  function ParseEventDatetime(v: Value, clock: Clock, repr: Value -> string): (r: Option<int>)
    ensures v.Null? ==> r.None?
    ensures v.Str? && PyStrip(v.s) == "" ==> r.None?
    ensures var w := if v.Dict? && HasKey(v.entries, "$date") then GetOrNull(v.entries, "$date") else v;
      !v.Null? ==>
        && (w.Bool? ==> r == Some(clock.fromTimestamp(if w.b then 1.0 else 0.0)))
        && (w.Int? ==> r == Some(clock.fromTimestamp(w.i as real)))
        && (w.Float? ==> r == Some(clock.fromTimestamp(w.f)))
    ensures var w := if v.Dict? && HasKey(v.entries, "$date") then GetOrNull(v.entries, "$date") else v;
      !v.Null? && !w.Bool? && !w.Int? && !w.Float? ==> r == ParseIsoText(PyStrip(StrOf(w, repr)), clock)
  {
    if v.Null? then None
    else
      var w := if v.Dict? && HasKey(v.entries, "$date") then GetOrNull(v.entries, "$date") else v;
      match w
      case Bool(b) => Some(clock.fromTimestamp(if b then 1.0 else 0.0))
      case Int(i) => Some(clock.fromTimestamp(i as real))
      case Float(f) => Some(clock.fromTimestamp(f))
      case _ =>
        ParseIsoText(PyStrip(StrOf(w, repr)), clock)
  }

  /** The text branch of `parse_event_datetime`: blank text is no time, and a final "Z" reads as "+00:00". */
  function ParseIsoText(text: string, clock: Clock): (r: Option<int>)
    ensures text == "" ==> r.None?
    ensures text != "" && text[|text| - 1] == 'Z' ==> r == clock.fromIso(text[..|text| - 1] + "+00:00")
    ensures text != "" && text[|text| - 1] != 'Z' ==> r == clock.fromIso(text)
  {
    if text == "" then None
    else if text[|text| - 1] == 'Z' then clock.fromIso(text[..|text| - 1] + "+00:00")
    else clock.fromIso(text)
  }

  /** A `$date` wrapper reads exactly as the value it wraps. */
  lemma {:induction false} DateWrapperTransparent(x: Value, clock: Clock, repr: Value -> string)
    requires !x.Null? && !x.Dict?
    ensures ParseEventDatetime(Dict([("$date", x)]), clock, repr) == ParseEventDatetime(x, clock, repr)
  {
    assert Get([("$date", x)], "$date") == Some(x);
  }

  /**
   * `should_remove_event`: a Strava event of one of the synced groups whose
   * time parses and is strictly before the cutoff.
   */
  predicate ShouldRemoveEvent(event: Entries, cutoff: int, clock: Clock, repr: Value -> string)
  {
    if GetOrNull(event, "source_type") != Str("strava") then false
    else
      var groupId := ParseNumberLong(GetOrNull(event, "source_group_id"));
      if groupId.None? || groupId.value !in StravaGroupIds then false
      else
        var eventTime := ParseEventDatetime(GetOrNull(event, "event_time_utc"), clock, repr);
        eventTime.Some? && eventTime.value < cutoff
  }

  /** The removal test as a function of the event. */
  function Removal(cutoff: int, clock: Clock, repr: Value -> string): Entries -> bool
  {
    event => ShouldRemoveEvent(event, cutoff, clock, repr)
  }

  /** An event that is not from a synced Strava group is never removed. */
  lemma {:induction false} OnlySyncedGroupsRemoved(event: Entries, cutoff: int, clock: Clock, repr: Value -> string)
    requires ShouldRemoveEvent(event, cutoff, clock, repr)
    ensures GetOrNull(event, "source_type") == Str("strava")
    ensures var g := ParseNumberLong(GetOrNull(event, "source_group_id")); g.Some? && g.value in StravaGroupIds
    ensures var t := ParseEventDatetime(GetOrNull(event, "event_time_utc"), clock, repr); t.Some? && t.value < cutoff
  {
  }

  /** An event exactly at the cutoff is kept: the comparison is strict. */
  lemma {:induction false} AtCutoffKept(event: Entries, clock: Clock, repr: Value -> string)
    requires ParseEventDatetime(GetOrNull(event, "event_time_utc"), clock, repr).Some?
    ensures !ShouldRemoveEvent(event, ParseEventDatetime(GetOrNull(event, "event_time_utc"), clock, repr).value, clock, repr)
  {
  }

  /** A later cutoff removes every event an earlier one removes. */
  lemma {:induction false} LaterCutoffRemovesMore(event: Entries, c1: int, c2: int, clock: Clock, repr: Value -> string)
    requires c1 <= c2 && ShouldRemoveEvent(event, c1, clock, repr)
    ensures ShouldRemoveEvent(event, c2, clock, repr)
  {
  }

  /**
   * `cleanup_events`: the events split into those kept and those removed,
   * each in input order.
   */
  method CleanupEvents(events: seq<Entries>, cutoff: int, clock: Clock, repr: Value -> string)
    returns (kept: seq<Entries>, removed: seq<Entries>)
    ensures kept == Reject(events, Removal(cutoff, clock, repr))
    ensures removed == Filter(events, Removal(cutoff, clock, repr))
  {
    kept, removed := SplitBy(events, Removal(cutoff, clock, repr));
  }

  /** The loop of `cleanup_events` with the removal test `remove`. */
  method SplitBy(events: seq<Entries>, remove: Entries -> bool) returns (kept: seq<Entries>, removed: seq<Entries>)
    ensures kept == Reject(events, remove)
    ensures removed == Filter(events, remove)
  {
    kept, removed := [], [];
    for i := 0 to |events|
      invariant kept + Reject(events[i..], remove) == Reject(events, remove)
      invariant removed + Filter(events[i..], remove) == Filter(events, remove)
    {
      FilterRejectStep(events, i, remove);
      if remove(events[i]) {
        removed := removed + [events[i]];
      } else {
        kept := kept + [events[i]];
      }
    }
  }

  /**
   * The two lists partition the input: together they hold every event
   * exactly once, each keeps the input order, every removed event passes
   * the test and no kept event does.
   */
  lemma {:induction false} CleanupPartition(events: seq<Entries>, cutoff: int, clock: Clock, repr: Value -> string)
    ensures var p := Removal(cutoff, clock, repr);
      |Reject(events, p)| + |Filter(events, p)| == |events|
      && multiset(Reject(events, p)) + multiset(Filter(events, p)) == multiset(events)
      && IsSubsequence(Reject(events, p), events) && IsSubsequence(Filter(events, p), events)
    ensures forall e :: e in Filter(events, Removal(cutoff, clock, repr)) ==> ShouldRemoveEvent(e, cutoff, clock, repr)
    ensures forall e :: e in Reject(events, Removal(cutoff, clock, repr)) ==> !ShouldRemoveEvent(e, cutoff, clock, repr)
  {
    var p := Removal(cutoff, clock, repr);
    FilterRejectPartition(events, p);
    FilterRejectSubsequences(events, p);
    FilterRejectMembers(events, p);
  }
}
