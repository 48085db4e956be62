/**
 * The page script `dynamic-loader.js`: the spreading of map markers that
 * share a spot, the split of the events into upcoming, planning and past
 * lists, the region label derived from a meet-up GPS string, the link and
 * label resolvers, and the HTML escaping used when the page is rendered.
 *
 * Times are integers (milliseconds since the epoch) and "now" is a
 * parameter. JavaScript's `Number(text)` and `String(number)` are the
 * parameters `toNumber` (`None` for `NaN`) and `numberText`.
 */
module DynamicLoader {
  import opened Wrappers
  import opened Text
  import opened Sequences

  function Abs(x: real): real
  {
    if x < 0.0 then -x else x
  }

  // ------------------------------------------------------------------ marker shifts

  const GpsOverlapTolerance: real := 0.03

  /** `GPS_SHIFTS`: no shift first, then the eight neighbours one tolerance away. */
  const GpsShifts: seq<(real, real)> := [
    (0.0, 0.0), (0.0, -0.03), (0.03, 0.0), (0.0, 0.03), (-0.03, 0.0),
    (0.03, -0.03), (0.03, 0.03), (-0.03, 0.03), (-0.03, -0.03)
  ]

  /** The shift of the marker at 0-based position `rank` in its group. */
  function ShiftFor(rank: nat): (r: (real, real))
    ensures r in GpsShifts
    ensures rank % 9 == 0 <==> r == (0.0, 0.0)
  {
    GpsShifts[rank % |GpsShifts|]
  }

  /** A map marker: its position, fixed when it is built, and the shift the page gives it. */
  class Marker {
    const lat: real
    const lng: real
    var shift: (real, real)

    /** `buildMarker` creates each marker unshifted. */
    constructor (lat: real, lng: real)
      ensures this.lat == lat && this.lng == lng && shift == (0.0, 0.0)
    {
      this.lat := lat;
      this.lng := lng;
      shift := (0.0, 0.0);
    }
  }

  function Position(m: Marker): (real, real)
  {
    (m.lat, m.lng)
  }

  /** One entry of `groups`: the position of the marker that opened it, and its markers. */
  datatype Group = Group(seed: (real, real), members: seq<Marker>)

  /** Strictly within the tolerance of `seed` on both axes. */
  predicate Near(seed: (real, real), p: (real, real))
  {
    Abs(seed.0 - p.0) < GpsOverlapTolerance && Abs(seed.1 - p.1) < GpsOverlapTolerance
  }

  /** `groups.find(...)`: the index of the earliest group whose seed is near `p`. */
  function FindGroup(groups: seq<Group>, p: (real, real)): (r: Option<nat>)
    ensures r.Some? ==> r.value < |groups| && Near(groups[r.value].seed, p)
    ensures r.Some? ==> forall j :: 0 <= j < r.value ==> !Near(groups[j].seed, p)
    ensures r.None? <==> forall j :: 0 <= j < |groups| ==> !Near(groups[j].seed, p)
  {
    if groups == [] then None
    else if Near(groups[0].seed, p) then Some(0)
    else
      var rest := FindGroup(groups[1..], p);
      if rest.None? then None else Some(rest.value + 1)
  }

  /** `markers.filter(Boolean)`: the markers that are not null. */
  function Present(markers: seq<Marker?>): (r: seq<Marker>)
    ensures |r| <= |markers|
    ensures forall i :: 0 <= i < |r| ==> r[i] in markers
    ensures forall i :: 0 <= i < |markers| && markers[i] != null ==> markers[i] in r
  {
    if markers == [] then []
    else if markers[0] == null then Present(markers[1..])
    else [markers[0]] + Present(markers[1..])
  }

  /** One step of the `forEach`: join the earliest near group, or open a new one. */
  function Place(groups: seq<Group>, m: Marker): seq<Group>
  {
    var found := FindGroup(groups, Position(m));
    if found.None? then groups + [Group(Position(m), [m])]
    else groups[found.value := Group(groups[found.value].seed, groups[found.value].members + [m])]
  }

  /** The groups after the `forEach` over `ms`. */
  function Grouped(ms: seq<Marker>): seq<Group>
  {
    if ms == [] then [] else Place(Grouped(ms[..|ms| - 1]), ms[|ms| - 1])
  }

  /** No later position of `s` holds the same marker as position `k`. */
  predicate LastIn(s: seq<Marker>, n: nat, k: nat)
    requires k < n <= |s|
  {
    forall j :: k < j < n ==> s[j] != s[k]
  }

  /**
   * `assignMarkerShifts`: groups the markers, then gives each marker the
   * shift of its position in its group. A marker listed twice keeps the
   * shift of its last position.
   */
  method AssignMarkerShifts(markers: seq<Marker?>)
    modifies set m: Marker | m in markers
    ensures var groups := Grouped(Present(markers));
      forall g :: 0 <= g < |groups| ==> Shifted(groups[g].members, |groups[g].members|)
  {
    var present := Present(markers);
    var groups := GroupMarkers(present);
    GroupedFind(present);
    GroupedMembers(present);
    GroupsDisjoint(groups);
    ApplyShifts(groups, markers);
  }

  /** The grouping loop of `assignMarkerShifts`. */
  method GroupMarkers(present: seq<Marker>) returns (groups: seq<Group>)
    ensures groups == Grouped(present)
  {
    groups := [];
    for i := 0 to |present|
      invariant groups == Grouped(present[..i])
    {
      var marker := present[i];
      var found := FindGroup(groups, (marker.lat, marker.lng));
      if found.None? {
        groups := groups + [Group((marker.lat, marker.lng), [marker])];
      } else {
        var g := found.value;
        groups := groups[g := Group(groups[g].seed, groups[g].members + [marker])];
      }
      assert present[..i + 1][..i] == present[..i];
    }
    assert present[..|present|] == present;
  }

  /** Every grouped marker comes from `markers`. */
  predicate MembersIn(groups: seq<Group>, markers: seq<Marker?>)
  {
    forall g, k :: 0 <= g < |groups| && 0 <= k < |groups[g].members| ==> groups[g].members[k] in markers
  }

  /** The shifting loop of `assignMarkerShifts`, one group after another. */
  method ApplyShifts(groups: seq<Group>, markers: seq<Marker?>)
    requires Disjoint(groups) && MembersIn(groups, markers)
    modifies set m: Marker | m in markers
    ensures forall g :: 0 <= g < |groups| ==> Shifted(groups[g].members, |groups[g].members|)
  {
    for g := 0 to |groups|
      invariant forall h :: 0 <= h < g ==> Shifted(groups[h].members, |groups[h].members|)
    {
      var members := groups[g].members;
      assert forall m :: m in members ==> m in markers;
      label before:
      ShiftGroup(members);
      forall h | 0 <= h < g
        ensures Shifted(groups[h].members, |groups[h].members|)
      {
        var others := groups[h].members;
        assert Unshared(groups[h].members, members);
        assert old@before(Shifted(others, |others|));
        assert forall j :: 0 <= j < |others| ==> others[j].shift == old@before(others[j].shift);
      }
    }
  }

  /** Each marker of one group takes the shift of its position in the group. */
  method ShiftGroup(members: seq<Marker>)
    modifies set m: Marker | m in members
    ensures Shifted(members, |members|)
  {
    for k := 0 to |members|
      invariant Shifted(members, k)
    {
      var marker := members[k];
      label before:
      marker.shift := GpsShifts[k % |GpsShifts|];
      forall j | 0 <= j < k + 1 && LastIn(members, k + 1, j)
        ensures members[j].shift == ShiftFor(j)
      {
        if j < k {
          assert members[k] != members[j];
          assert LastIn(members, k, j);
          assert old@before(members[j].shift) == ShiftFor(j);
        }
      }
    }
  }

  /**
   * The first `n` markers of `members` hold the shifts of their positions,
   * each marker that of its last position among them.
   */
  predicate Shifted(members: seq<Marker>, n: nat)
    requires n <= |members|
    reads members
  {
    forall j :: 0 <= j < n && LastIn(members, n, j) ==> members[j].shift == ShiftFor(j)
  }

  /** No marker of `a` is in `b`. */
  predicate Unshared(a: seq<Marker>, b: seq<Marker>)
  {
    forall m :: m in a ==> m !in b
  }

  /** No marker belongs to two groups. */
  predicate Disjoint(groups: seq<Group>)
  {
    forall g, h :: 0 <= g < |groups| && 0 <= h < |groups| && g != h ==> Unshared(groups[g].members, groups[h].members)
  }

  lemma {:induction false} GroupsDisjoint(groups: seq<Group>)
    requires FindsOwnGroup(groups)
    ensures Disjoint(groups)
  {
  }

  /** `find` reads only the seeds. */
  lemma {:induction false} FindSameSeeds(a: seq<Group>, b: seq<Group>, p: (real, real))
    requires |a| == |b| && forall g :: 0 <= g < |a| ==> a[g].seed == b[g].seed
    ensures FindGroup(a, p) == FindGroup(b, p)
  {
  }

  /** A group opened later does not change where an earlier group is found. */
  lemma {:induction false} FindAppend(a: seq<Group>, x: Group, p: (real, real))
    ensures FindGroup(a, p).Some? ==> FindGroup(a + [x], p) == FindGroup(a, p)
    ensures FindGroup(a, p).None? ==> FindGroup(a + [x], p) == if Near(x.seed, p) then Some(|a|) else None
  {
    if a != [] {
      FindAppend(a[1..], x, p);
      assert (a + [x])[1..] == a[1..] + [x];
    }
  }

  /** Every marker sits in the group `find` returns for its position. */
  predicate FindsOwnGroup(groups: seq<Group>)
  {
    forall g, k :: 0 <= g < |groups| && 0 <= k < |groups[g].members| ==>
      FindGroup(groups, Position(groups[g].members[k])) == Some(g)
  }

  /** Every group is opened by a marker at its seed. */
  predicate SeededByFirst(groups: seq<Group>)
  {
    forall g :: 0 <= g < |groups| ==> groups[g].members != [] && Position(groups[g].members[0]) == groups[g].seed
  }

  lemma {:induction false} PlaceNew(groups: seq<Group>, m: Marker)
    requires FindGroup(groups, Position(m)).None?
    requires FindsOwnGroup(groups) && SeededByFirst(groups)
    ensures FindsOwnGroup(Place(groups, m)) && SeededByFirst(Place(groups, m))
  {
    var x := Group(Position(m), [m]);
    var after := groups + [x];
    assert Place(groups, m) == after;
    forall g, k | 0 <= g < |after| && 0 <= k < |after[g].members|
      ensures FindGroup(after, Position(after[g].members[k])) == Some(g)
    {
      var q := Position(after[g].members[k]);
      FindAppend(groups, x, q);
      if g < |groups| {
        assert after[g] == groups[g];
      }
    }
  }

  lemma {:induction false} PlaceJoin(groups: seq<Group>, m: Marker)
    requires FindGroup(groups, Position(m)).Some?
    requires FindsOwnGroup(groups) && SeededByFirst(groups)
    ensures FindsOwnGroup(Place(groups, m)) && SeededByFirst(Place(groups, m))
  {
    var f := FindGroup(groups, Position(m)).value;
    var after := Place(groups, m);
    assert after == groups[f := Group(groups[f].seed, groups[f].members + [m])];
    JoinFinds(groups, m, f, after);
    JoinSeeds(groups, m, f, after);
  }

  /** Joining a group keeps every marker found in its own group. */
  lemma {:induction false} JoinFinds(groups: seq<Group>, m: Marker, f: nat, after: seq<Group>)
    requires f < |groups| && FindGroup(groups, Position(m)) == Some(f) && FindsOwnGroup(groups)
    requires after == groups[f := Group(groups[f].seed, groups[f].members + [m])]
    ensures FindsOwnGroup(after)
  {
    forall g, k | 0 <= g < |after| && 0 <= k < |after[g].members|
      ensures FindGroup(after, Position(after[g].members[k])) == Some(g)
    {
      var q := Position(after[g].members[k]);
      FindSameSeeds(after, groups, q);
      if g != f || k < |groups[g].members| {
        assert after[g].members[k] == groups[g].members[k];
      }
    }
  }

  /** Joining a group leaves every group's first marker in place. */
  lemma {:induction false} JoinSeeds(groups: seq<Group>, m: Marker, f: nat, after: seq<Group>)
    requires f < |groups| && SeededByFirst(groups)
    requires after == groups[f := Group(groups[f].seed, groups[f].members + [m])]
    ensures SeededByFirst(after)
  {
    forall g | 0 <= g < |after|
      ensures after[g].members != [] && Position(after[g].members[0]) == after[g].seed
    {
      assert after[g].members[0] == groups[g].members[0];
    }
  }

  /**
   * Every marker sits in the group `find` returns for its own position, so
   * one marker never appears in two groups, and each group's seed is the
   * position of its first marker.
   */
  lemma {:induction false} GroupedFind(ms: seq<Marker>)
    ensures FindsOwnGroup(Grouped(ms)) && SeededByFirst(Grouped(ms))
    decreases |ms|
  {
    if ms != [] {
      var before := Grouped(ms[..|ms| - 1]);
      var m := ms[|ms| - 1];
      GroupedFind(ms[..|ms| - 1]);
      if FindGroup(before, Position(m)).None? {
        PlaceNew(before, m);
      } else {
        PlaceJoin(before, m);
      }
    }
  }

  /** The markers of each group are a subsequence of the markers placed. */
  predicate InInputOrder(groups: seq<Group>, ms: seq<Marker>)
  {
    forall g :: 0 <= g < |groups| ==> IsSubsequence(groups[g].members, ms)
  }

  /** Every placed marker is in the group `find` returns for it. */
  predicate Covers(groups: seq<Group>, ms: seq<Marker>)
  {
    forall m :: m in ms ==>
      FindGroup(groups, Position(m)).Some? && m in groups[FindGroup(groups, Position(m)).value].members
  }

  lemma {:induction false} PlaceOrder(groups: seq<Group>, ms: seq<Marker>, m: Marker)
    requires InInputOrder(groups, ms)
    ensures InInputOrder(Place(groups, m), ms + [m])
  {
    var after := Place(groups, m);
    var found := FindGroup(groups, Position(m));
    forall g | 0 <= g < |after|
      ensures IsSubsequence(after[g].members, ms + [m])
    {
      if found.None? && g == |groups| {
        assert after[g].members == [m];
        SubsequenceOfSelfSuffix(ms, [m]);
      } else if found.Some? && g == found.value {
        SubsequenceAppend(groups[g].members, ms, m);
      } else {
        assert after[g] == groups[g];
        SubsequenceExtend(groups[g].members, ms, m);
      }
    }
  }

  lemma {:induction false} PlaceCovers(groups: seq<Group>, ms: seq<Marker>, m: Marker)
    requires Covers(groups, ms)
    ensures Covers(Place(groups, m), ms + [m])
  {
    var after := Place(groups, m);
    var found := FindGroup(groups, Position(m));
    forall x | x in ms + [m]
      ensures FindGroup(after, Position(x)).Some? && x in after[FindGroup(after, Position(x)).value].members
    {
      if found.None? {
        FindAppend(groups, Group(Position(m), [m]), Position(x));
        if x != m {
          var g := FindGroup(groups, Position(x)).value;
          assert after[g] == groups[g];
        } else {
          assert after[|groups|].members == [m];
        }
      } else {
        FindSameSeeds(after, groups, Position(x));
        var g := FindGroup(groups, Position(x)).value;
        if x == m {
          assert after[g].members == groups[g].members + [m];
        } else {
          assert x in ms;
          assert groups[g].members <= after[g].members;
        }
      }
    }
  }

  /** Every marker lands in a group, in the group of its position, and groups keep input order. */
  lemma {:induction false} GroupedMembers(ms: seq<Marker>)
    ensures InInputOrder(Grouped(ms), ms) && Covers(Grouped(ms), ms)
    ensures var groups := Grouped(ms);
      forall g, k :: 0 <= g < |groups| && 0 <= k < |groups[g].members| ==> groups[g].members[k] in ms
    decreases |ms|
  {
    if ms != [] {
      var prefix := ms[..|ms| - 1];
      var m := ms[|ms| - 1];
      GroupedMembers(prefix);
      assert ms == prefix + [m];
      PlaceOrder(Grouped(prefix), prefix, m);
      PlaceCovers(Grouped(prefix), prefix, m);
      var groups := Grouped(ms);
      forall g, k | 0 <= g < |groups| && 0 <= k < |groups[g].members|
        ensures groups[g].members[k] in ms
      {
        SubsequenceMembers(groups[g].members, ms);
      }
    }
  }

  lemma {:induction false} NearSymmetric(a: (real, real), b: (real, real))
    ensures Near(a, b) == Near(b, a)
  {
    assert Abs(a.0 - b.0) == Abs(b.0 - a.0) && Abs(a.1 - b.1) == Abs(b.1 - a.1);
  }

  /** Group seeds lie outside each other's tolerance box. */
  predicate SeedsSpread(groups: seq<Group>)
  {
    forall g, h :: 0 <= g < |groups| && 0 <= h < |groups| && g != h ==> !Near(groups[g].seed, groups[h].seed)
  }

  lemma {:induction false} SeedsApart(ms: seq<Marker>)
    ensures SeedsSpread(Grouped(ms))
    decreases |ms|
  {
    if ms != [] {
      var prefix := ms[..|ms| - 1];
      var m := ms[|ms| - 1];
      SeedsApart(prefix);
      var before := Grouped(prefix);
      var after := Grouped(ms);
      var found := FindGroup(before, Position(m));
      if found.None? {
        assert after == before + [Group(Position(m), [m])];
        forall g, h | 0 <= g < |after| && 0 <= h < |after| && g != h
          ensures !Near(after[g].seed, after[h].seed)
        {
          if g == |before| {
            assert !Near(before[h].seed, Position(m));
            NearSymmetric(before[h].seed, Position(m));
          } else if h == |before| {
            assert !Near(before[g].seed, Position(m));
          }
        }
      } else {
        assert after == before[found.value := Group(before[found.value].seed, before[found.value].members + [m])];
        assert forall g :: 0 <= g < |after| ==> after[g].seed == before[g].seed;
      }
    }
  }

  /**
   * When no marker is listed twice, every marker gets the shift of its own
   * position in its group: the first of each group none, the tenth none
   * again.
   */
  lemma {:induction false} DistinctShifts(markers: seq<Marker?>, g: nat, k: nat)
    requires forall i, j :: 0 <= i < j < |markers| && markers[i] != null ==> markers[i] != markers[j]
    requires var groups := Grouped(Present(markers)); g < |groups| && k < |groups[g].members|
    ensures var members := Grouped(Present(markers))[g].members; LastIn(members, |members|, k)
  {
    var present := Present(markers);
    var members := Grouped(present)[g].members;
    PresentDistinct(markers);
    GroupedMembers(present);
    assert InInputOrder(Grouped(present), present);
    DistinctSubsequence(members, present);
  }

  predicate Distinct(s: seq<Marker>)
  {
    forall i, j :: 0 <= i < j < |s| ==> s[i] != s[j]
  }

  lemma {:induction false} PresentDistinct(markers: seq<Marker?>)
    requires forall i, j :: 0 <= i < j < |markers| && markers[i] != null ==> markers[i] != markers[j]
    ensures Distinct(Present(markers))
  {
    if markers != [] {
      PresentDistinct(markers[1..]);
      var rest := Present(markers[1..]);
      if markers[0] != null {
        var r := Present(markers);
        assert r == [markers[0]] + rest;
        forall i, j | 0 <= i < j < |r|
          ensures r[i] != r[j]
        {
          assert r[j] == rest[j - 1];
          if i == 0 {
            assert rest[j - 1] in markers[1..];
            var k :| 0 <= k < |markers[1..]| && markers[1..][k] == rest[j - 1];
            assert markers[k + 1] == r[j];
            assert markers[0] != markers[k + 1];
          } else {
            assert r[i] == rest[i - 1];
            assert rest[i - 1] != rest[j - 1];
          }
        }
      }
    }
  }

  lemma {:induction false} DistinctSubsequence(sub: seq<Marker>, s: seq<Marker>)
    requires IsSubsequence(sub, s) && Distinct(s)
    ensures Distinct(sub)
    decreases |s|
  {
    if sub != [] {
      if sub[0] == s[0] && IsSubsequence(sub[1..], s[1..]) {
        DistinctSubsequence(sub[1..], s[1..]);
        SubsequenceMembers(sub[1..], s[1..]);
        assert s[0] !in s[1..];
        forall j | 0 < j < |sub|
          ensures sub[0] != sub[j]
        {
          assert sub[j] == sub[1..][j - 1];
        }
      } else {
        DistinctSubsequence(sub, s[1..]);
      }
    }
  }

  // ------------------------------------------------------------------ time buckets

  const SixHours: int := 6 * 60 * 60 * 1000
  const FourteenDays: int := 14 * 24 * 60 * 60 * 1000

  /** The fields of a normalised event that the page logic reads. */
  datatype LoaderEvent = LoaderEvent(
    id: string,
    time: Option<int>,
    sourceType: string,
    sourceGroupName: string,
    routeUrl: string,
    stravaUrl: string,
    sourceUrl: string,
    gpsCoordinates: string)

  datatype Bucket = Upcoming | Planning | Past

  /** Upcoming from six hours ago to fourteen days ahead, planning beyond, past before. */
  function BucketOf(t: int, now: int): (b: Bucket)
    ensures b == Upcoming <==> now - SixHours <= t <= now + FourteenDays
    ensures b == Planning <==> t > now + FourteenDays
    ensures b == Past <==> t < now - SixHours
  {
    if now - SixHours <= t && t <= now + FourteenDays then Upcoming
    else if t > now + FourteenDays then Planning
    else Past
  }

  /** The timed events of bucket `b`, in input order. */
  function InBucket(events: seq<LoaderEvent>, now: int, b: Bucket): (r: seq<LoaderEvent>)
    ensures forall e :: e in r ==> e.time.Some? && BucketOf(e.time.value, now) == b
  {
    if events == [] then []
    else
      var last := events[|events| - 1];
      InBucket(events[..|events| - 1], now, b)
      + (if last.time.Some? && BucketOf(last.time.value, now) == b then [last] else [])
  }

  /** The events that have a time. */
  function Timed(events: seq<LoaderEvent>): seq<LoaderEvent>
  {
    if events == [] then []
    else Timed(events[..|events| - 1]) + (if events[|events| - 1].time.Some? then [events[|events| - 1]] else [])
  }

  function TimeKey(e: LoaderEvent): int
  {
    if e.time.Some? then e.time.value else 0
  }

  function ReverseTimeKey(e: LoaderEvent): int
  {
    -TimeKey(e)
  }

  /**
   * `categorizeEvents`: one pass pushing each timed event to its bucket,
   * then the upcoming and planning lists sorted by ascending time and the
   * past list by descending time, each sort stable.
   */
  method CategorizeEvents(events: seq<LoaderEvent>, now: int)
    returns (upcoming: seq<LoaderEvent>, planning: seq<LoaderEvent>, past: seq<LoaderEvent>)
    ensures upcoming == SortByKey(InBucket(events, now, Upcoming), TimeKey)
    ensures planning == SortByKey(InBucket(events, now, Planning), TimeKey)
    ensures past == SortByKey(InBucket(events, now, Past), ReverseTimeKey)
  {
    var sixHoursBefore := now - 6 * 60 * 60 * 1000;
    var fourteenDaysLater := now + 14 * 24 * 60 * 60 * 1000;
    upcoming, planning, past := [], [], [];
    for i := 0 to |events|
      invariant upcoming == InBucket(events[..i], now, Upcoming)
      invariant planning == InBucket(events[..i], now, Planning)
      invariant past == InBucket(events[..i], now, Past)
    {
      assert events[..i + 1][..i] == events[..i];
      var event := events[i];
      if event.time.Some? {
        var eventTime := event.time.value;
        if eventTime >= sixHoursBefore && eventTime <= fourteenDaysLater {
          upcoming := upcoming + [event];
        } else if eventTime > fourteenDaysLater {
          planning := planning + [event];
        } else {
          past := past + [event];
        }
      }
    }
    assert events[..|events|] == events;
    upcoming := SortByKey(upcoming, TimeKey);
    planning := SortByKey(planning, TimeKey);
    past := SortByKey(past, ReverseTimeKey);
  }

  /** The buckets split the timed events: each lands in exactly one. */
  lemma {:induction false} BucketsPartition(events: seq<LoaderEvent>, now: int)
    ensures multiset(InBucket(events, now, Upcoming)) + multiset(InBucket(events, now, Planning))
      + multiset(InBucket(events, now, Past)) == multiset(Timed(events))
  {
    if events != [] {
      BucketsPartition(events[..|events| - 1], now);
    }
  }

  /**
   * What the page receives: upcoming and planning ascending and past
   * descending by time, each list a reordering of its bucket, and events
   * with equal times in input order.
   */
  lemma {:induction false} CategorizedOrder(events: seq<LoaderEvent>, now: int, t: int)
    ensures var upcoming := SortByKey(InBucket(events, now, Upcoming), TimeKey);
      SortedBy(upcoming, TimeKey) && multiset(upcoming) == multiset(InBucket(events, now, Upcoming))
      && WithKey(upcoming, TimeKey, t) == WithKey(InBucket(events, now, Upcoming), TimeKey, t)
    ensures var planning := SortByKey(InBucket(events, now, Planning), TimeKey);
      SortedBy(planning, TimeKey) && multiset(planning) == multiset(InBucket(events, now, Planning))
      && WithKey(planning, TimeKey, t) == WithKey(InBucket(events, now, Planning), TimeKey, t)
    ensures var past := SortByKey(InBucket(events, now, Past), ReverseTimeKey);
      (forall i, j :: 0 <= i < j < |past| ==> TimeKey(past[i]) >= TimeKey(past[j]))
      && multiset(past) == multiset(InBucket(events, now, Past))
      && WithKey(past, ReverseTimeKey, t) == WithKey(InBucket(events, now, Past), ReverseTimeKey, t)
  {
    SortedBucket(InBucket(events, now, Upcoming), TimeKey, t);
    SortedBucket(InBucket(events, now, Planning), TimeKey, t);
    PastBucketDescending(InBucket(events, now, Past), t);
  }

  /** The past list: descending by time, a reordering, and stable among equal times. */
  lemma {:induction false} PastBucketDescending(bucket: seq<LoaderEvent>, k: int)
    ensures var past := SortByKey(bucket, ReverseTimeKey);
      (forall i, j :: 0 <= i < j < |past| ==> TimeKey(past[i]) >= TimeKey(past[j]))
      && multiset(past) == multiset(bucket) && WithKey(past, ReverseTimeKey, k) == WithKey(bucket, ReverseTimeKey, k)
  {
    var past := SortByKey(bucket, ReverseTimeKey);
    SortedBucket(bucket, ReverseTimeKey, k);
    forall i, j | 0 <= i < j < |past| ensures TimeKey(past[i]) >= TimeKey(past[j]) {
      assert ReverseTimeKey(past[i]) <= ReverseTimeKey(past[j]);
    }
  }

  /** Sorting one bucket: ordered by the key, a reordering, and stable among equal keys. */
  lemma {:induction false} SortedBucket(bucket: seq<LoaderEvent>, key: LoaderEvent -> int, k: int)
    ensures var sorted := SortByKey(bucket, key);
      SortedBy(sorted, key) && multiset(sorted) == multiset(bucket) && WithKey(sorted, key, k) == WithKey(bucket, key, k)
  {
    SortByKeySorted(bucket, key);
    SortByKeyPermutation(bucket, key);
    SortByKeyStable(bucket, key, k);
  }

  // ------------------------------------------------------------------ region label

  const NorCalLabel: string := "北加"
  const SoCalLabel: string := "南加"

  predicate InNorCal(lat: real, lng: real)
  {
    35.0 <= lat <= 40.0 && -123.3 <= lng <= -119.5
  }

  predicate InSoCal(lat: real, lng: real)
  {
    32.0 <= lat <= 35.0 && -120.0 <= lng <= -114.0
  }

  /**
   * `deriveEventArea`: the label of the box the "lat,lng" text falls in,
   * NorCal tested first; "" for an empty text, a count of comma-separated
   * parts other than two, or a part that is not a number.
   */
  function DeriveEventArea(gpsCoordinates: string, toNumber: string -> Option<real>): (r: string)
    ensures r == "" || r == NorCalLabel || r == SoCalLabel
  {
    if gpsCoordinates == "" then ""
    else
      var parts := Split(gpsCoordinates, ',');
      if |parts| != 2 then ""
      else
        var lat := toNumber(JsTrim(parts[0]));
        var lng := toNumber(JsTrim(parts[1]));
        if lat.None? || lng.None? then ""
        else if InNorCal(lat.value, lng.value) then NorCalLabel
        else if InSoCal(lat.value, lng.value) then SoCalLabel
        else ""
  }

  /** The coordinates the area test reads, when the text holds exactly two numbers. */
  function ParsedPair(gpsCoordinates: string, toNumber: string -> Option<real>): Option<(real, real)>
  {
    var parts := Split(gpsCoordinates, ',');
    if |parts| != 2 then None
    else
      var lat := toNumber(JsTrim(parts[0]));
      var lng := toNumber(JsTrim(parts[1]));
      if lat.None? || lng.None? then None else Some((lat.value, lng.value))
  }

  /**
   * The label names a region exactly when the text parses to a point in it;
   * a point on the shared edge of both boxes is NorCal.
   */
  lemma {:induction false} AreaCases(gpsCoordinates: string, toNumber: string -> Option<real>)
    ensures var r := DeriveEventArea(gpsCoordinates, toNumber);
      var p := ParsedPair(gpsCoordinates, toNumber);
      && (r == NorCalLabel <==> gpsCoordinates != "" && p.Some? && InNorCal(p.value.0, p.value.1))
      && (r == SoCalLabel <==> gpsCoordinates != "" && p.Some? && !InNorCal(p.value.0, p.value.1) && InSoCal(p.value.0, p.value.1))
  {
    assert NorCalLabel != SoCalLabel && NorCalLabel != "" && SoCalLabel != "";
  }

  /** Text of any shape other than "lat,lng" gives no label. */
  lemma {:induction false} AreaNeedsTwoParts(gpsCoordinates: string, toNumber: string -> Option<real>)
    requires |Split(gpsCoordinates, ',')| != 2
    ensures DeriveEventArea(gpsCoordinates, toNumber) == ""
  {
  }

  // ------------------------------------------------------------------ resolvers

  /** The first non-empty text of `candidates`, or "". */
  function FirstNonEmpty(candidates: seq<string>): string
  {
    if candidates == [] then "" else if candidates[0] != "" then candidates[0] else FirstNonEmpty(candidates[1..])
  }

  /** `resolveRouteUrl`: the route link, else the Strava link, else an http source link. */
  function ResolveRouteUrl(event: LoaderEvent): string
  {
    if event.routeUrl != "" then event.routeUrl
    else if event.stravaUrl != "" then event.stravaUrl
    else if event.sourceUrl != "" && StartsWith(event.sourceUrl, "http") then event.sourceUrl
    else ""
  }

  /** The route link is the first available of the three candidates in priority order. */
  lemma {:induction false} RouteUrlPriority(event: LoaderEvent)
    ensures ResolveRouteUrl(event) == FirstNonEmpty([event.routeUrl, event.stravaUrl,
      if StartsWith(event.sourceUrl, "http") then event.sourceUrl else ""])
  {
    var source := if StartsWith(event.sourceUrl, "http") then event.sourceUrl else "";
    var candidates := [event.routeUrl, event.stravaUrl, source];
    assert candidates[1..] == [event.stravaUrl, source];
    assert candidates[1..][1..] == [source];
    assert candidates[1..][1..][1..] == [];
    assert FirstNonEmpty([source]) == source;
    assert FirstNonEmpty([event.stravaUrl, source]) == if event.stravaUrl != "" then event.stravaUrl else source;
  }

  /** `resolveSourceEventUrl`: the source link, else the route link passed in. */
  function ResolveSourceEventUrl(event: LoaderEvent, routeUrl: string): (r: string)
    ensures r == "" <==> event.sourceUrl == "" && routeUrl == ""
    ensures r == FirstNonEmpty([event.sourceUrl, routeUrl])
  {
    if event.sourceUrl != "" then event.sourceUrl
    else
      assert [event.sourceUrl, routeUrl][1..] == [routeUrl] && [routeUrl][1..] == [];
      assert FirstNonEmpty([routeUrl]) == routeUrl;
      routeUrl
  }

  /** The page shows a source link unless the event has no route, Strava or source link at all. */
  lemma {:induction false} SourceLinkPresent(event: LoaderEvent)
    ensures ResolveSourceEventUrl(event, ResolveRouteUrl(event)) == ""
      <==> event.routeUrl == "" && event.stravaUrl == "" && event.sourceUrl == ""
  {
  }

  /** `resolveSourceGroupName`: the group name behind a prefix naming the source type. */
  function ResolveSourceGroupName(event: LoaderEvent): (r: string)
    ensures |r| >= |event.sourceGroupName| && r[|r| - |event.sourceGroupName|..] == event.sourceGroupName
    ensures r == event.sourceGroupName <==> event.sourceType != "strava" && event.sourceType != "wechat" && event.sourceType != "news"
  {
    if event.sourceType == "strava" then "Strava Club - " + event.sourceGroupName
    else if event.sourceType == "wechat" then "微信群 - " + event.sourceGroupName
    else if event.sourceType == "news" then "新闻 - " + event.sourceGroupName
    else event.sourceGroupName
  }

  // ------------------------------------------------------------------ text

  /** The JavaScript values the text helpers receive. */
  datatype JsValue = Undefined | Null | JsBool(b: bool) | JsNumber(n: real) | JsString(s: string)

  /** `String(value)`. */
  function ToJsString(value: JsValue, numberText: real -> string): string
  {
    match value
    case Undefined => "undefined"
    case Null => "null"
    case JsBool(b) => if b then "true" else "false"
    case JsNumber(n) => numberText(n)
    case JsString(s) => s
  }

  /** `normalizeText`: a string trimmed, null and undefined as "", anything else as its trimmed text. */
  function NormalizeText(value: JsValue, numberText: real -> string): (r: string)
    ensures value.Undefined? || value.Null? ==> r == ""
    ensures !value.Undefined? && !value.Null? ==> r == JsTrim(ToJsString(value, numberText))
    ensures r != [] ==> !IsJsWhitespace(r[0]) && !IsJsWhitespace(r[|r| - 1])
  {
    if value.JsString? then JsTrim(value.s)
    else if value.Undefined? || value.Null? then ""
    else JsTrim(ToJsString(value, numberText))
  }

  /** Normalising normalised text changes nothing. */
  lemma {:induction false} NormalizeTextIdempotent(value: JsValue, numberText: real -> string)
    ensures NormalizeText(JsString(NormalizeText(value, numberText)), numberText) == NormalizeText(value, numberText)
  {
    if value.JsString? {
      TrimTwice(value.s, IsJsWhitespace);
    } else if value.Undefined? || value.Null? {
      assert JsTrim("") == "";
    } else {
      TrimTwice(ToJsString(value, numberText), IsJsWhitespace);
    }
  }

  /** `text.replace(/c/g, replacement)` for a single character `c`. */
  function ReplaceChar(text: string, c: char, replacement: string): string
  {
    if text == [] then []
    else (if text[0] == c then replacement else [text[0]]) + ReplaceChar(text[1..], c, replacement)
  }

  /** The five replacements of `escapeHtml`, in the order the code applies them. */
  function EscapeChain(text: string): string
  {
    var amp := ReplaceChar(text, '&', "&amp;");
    var lt := ReplaceChar(amp, '<', "&lt;");
    var gt := ReplaceChar(lt, '>', "&gt;");
    var quot := ReplaceChar(gt, '"', "&quot;");
    ReplaceChar(quot, '\'', "&#39;")
  }

  /** `escapeHtml`: "" for null and undefined, else the replacements on `String(value)`. */
  function EscapeHtml(value: JsValue, numberText: real -> string): string
  {
    if value.Undefined? || value.Null? then "" else EscapeChain(ToJsString(value, numberText))
  }

  /** `escapeAttribute`: `escapeHtml`, then each line feed as a space. */
  function EscapeAttribute(value: JsValue, numberText: real -> string): string
  {
    ReplaceChar(EscapeHtml(value, numberText), '\n', " ")
  }

  /** The entity of one character: the reference definition of the escaping. */
  function EscapeChar(c: char): string
  {
    if c == '&' then "&amp;"
    else if c == '<' then "&lt;"
    else if c == '>' then "&gt;"
    else if c == '"' then "&quot;"
    else if c == '\'' then "&#39;"
    else [c]
  }

  /** Each character replaced by its entity, independently of its neighbours. */
  function EscapeEach(text: string, escape: char -> string): string
  {
    if text == [] then [] else escape(text[0]) + EscapeEach(text[1..], escape)
  }

  function AttributeChar(c: char): string
  {
    if c == '\n' then " " else EscapeChar(c)
  }

  lemma {:induction false} ReplaceAppend(a: string, b: string, c: char, replacement: string)
    ensures ReplaceChar(a + b, c, replacement) == ReplaceChar(a, c, replacement) + ReplaceChar(b, c, replacement)
  {
    if a == [] {
      assert a + b == b;
    } else {
      ReplaceAppend(a[1..], b, c, replacement);
      var head := if a[0] == c then replacement else [a[0]];
      assert (a + b)[1..] == a[1..] + b;
      assert ReplaceChar(a + b, c, replacement) == head + ReplaceChar(a[1..] + b, c, replacement);
      AppendAssoc(head, ReplaceChar(a[1..], c, replacement), ReplaceChar(b, c, replacement));
    }
  }

  lemma {:induction false} ReplaceAbsent(text: string, c: char, replacement: string)
    requires c !in text
    ensures ReplaceChar(text, c, replacement) == text
  {
    if text != [] {
      ReplaceAbsent(text[1..], c, replacement);
    }
  }

  lemma {:induction false} EscapeChainAppend(a: string, b: string)
    ensures EscapeChain(a + b) == EscapeChain(a) + EscapeChain(b)
  {
    var a1, b1 := ReplaceChar(a, '&', "&amp;"), ReplaceChar(b, '&', "&amp;");
    ReplaceAppend(a, b, '&', "&amp;");
    var a2, b2 := ReplaceChar(a1, '<', "&lt;"), ReplaceChar(b1, '<', "&lt;");
    ReplaceAppend(a1, b1, '<', "&lt;");
    var a3, b3 := ReplaceChar(a2, '>', "&gt;"), ReplaceChar(b2, '>', "&gt;");
    ReplaceAppend(a2, b2, '>', "&gt;");
    var a4, b4 := ReplaceChar(a3, '"', "&quot;"), ReplaceChar(b3, '"', "&quot;");
    ReplaceAppend(a3, b3, '"', "&quot;");
    ReplaceAppend(a4, b4, '\'', "&#39;");
  }

  /** Applied to one character, the chain yields that character's entity. */
  lemma {:induction false} EscapeChainChar(c: char)
    ensures EscapeChain([c]) == EscapeChar(c)
  {
    if c == '&' {
      ChainOnEntity(c, "&amp;");
    } else if c == '<' {
      ChainOnEntity(c, "&lt;");
    } else if c == '>' {
      ChainOnEntity(c, "&gt;");
    } else if c == '"' {
      ChainOnEntity(c, "&quot;");
    } else if c == '\'' {
      ChainOnEntity(c, "&#39;");
    } else {
      ChainOnPlain(c);
    }
  }

  /** A character none of the five replacements touches goes through the chain unchanged. */
  lemma {:induction false} ChainOnPlain(c: char)
    requires c != '&' && c != '<' && c != '>' && c != '"' && c != '\''
    ensures EscapeChain([c]) == [c]
  {
    ReplaceSingle([c], c, '&', "&amp;");
    ReplaceSingle([c], c, '<', "&lt;");
    ReplaceSingle([c], c, '>', "&gt;");
    ReplaceSingle([c], c, '"', "&quot;");
    ReplaceSingle([c], c, '\'', "&#39;");
  }

  /** A special character becomes its entity at its own step, which the later steps leave alone. */
  lemma {:induction false} ChainOnEntity(c: char, e: string)
    requires e == EscapeChar(c) && e != [c]
    ensures EscapeChain([c]) == e
  {
    if c == '&' {
      ChainOnAmp();
    } else if c == '<' {
      ChainOnLt();
    } else if c == '>' {
      ChainOnGt();
    } else if c == '"' {
      ChainOnQuot();
    } else {
      ChainOnApos();
    }
  }

  lemma {:induction false} ChainOnAmp()
    ensures EscapeChain("&") == "&amp;"
  {
    assert '<' !in "&amp;" && '>' !in "&amp;" && '"' !in "&amp;" && '\'' !in "&amp;";
    ReplaceSingle("&", '&', '&', "&amp;");
    ReplaceAbsent("&amp;", '<', "&lt;");
    ReplaceAbsent("&amp;", '>', "&gt;");
    ReplaceAbsent("&amp;", '"', "&quot;");
    ReplaceAbsent("&amp;", '\'', "&#39;");
  }

  lemma {:induction false} ChainOnLt()
    ensures EscapeChain("<") == "&lt;"
  {
    assert '>' !in "&lt;" && '"' !in "&lt;" && '\'' !in "&lt;";
    ReplaceSingle("<", '<', '&', "&amp;");
    ReplaceSingle("<", '<', '<', "&lt;");
    ReplaceAbsent("&lt;", '>', "&gt;");
    ReplaceAbsent("&lt;", '"', "&quot;");
    ReplaceAbsent("&lt;", '\'', "&#39;");
  }

  lemma {:induction false} ChainOnGt()
    ensures EscapeChain(">") == "&gt;"
  {
    assert '"' !in "&gt;" && '\'' !in "&gt;";
    ReplaceSingle(">", '>', '&', "&amp;");
    ReplaceSingle(">", '>', '<', "&lt;");
    ReplaceSingle(">", '>', '>', "&gt;");
    ReplaceAbsent("&gt;", '"', "&quot;");
    ReplaceAbsent("&gt;", '\'', "&#39;");
  }

  lemma {:induction false} ChainOnQuot()
    ensures EscapeChain("\"") == "&quot;"
  {
    assert '\'' !in "&quot;";
    ReplaceSingle("\"", '"', '&', "&amp;");
    ReplaceSingle("\"", '"', '<', "&lt;");
    ReplaceSingle("\"", '"', '>', "&gt;");
    ReplaceSingle("\"", '"', '"', "&quot;");
    ReplaceAbsent("&quot;", '\'', "&#39;");
  }

  lemma {:induction false} ChainOnApos()
    ensures EscapeChain("'") == "&#39;"
  {
    ReplaceSingle("'", '\'', '&', "&amp;");
    ReplaceSingle("'", '\'', '<', "&lt;");
    ReplaceSingle("'", '\'', '>', "&gt;");
    ReplaceSingle("'", '\'', '"', "&quot;");
    ReplaceSingle("'", '\'', '\'', "&#39;");
  }

  /** One replacement step on what the earlier steps made of a single character. */
  lemma {:induction false} ReplaceSingle(s: string, c: char, target: char, replacement: string)
    requires s == [c] || target !in s
    ensures ReplaceChar(s, target, replacement) == if c == target && s == [c] then replacement else s
  {
    if s == [c] {
      assert ReplaceChar(s, target, replacement) == (if c == target then replacement else [c]) + ReplaceChar([], target, replacement);
    } else {
      ReplaceAbsent(s, target, replacement);
    }
  }

  /**
   * Because '&' is replaced first, the chain of global replacements is the
   * per-character escaping: no entity is escaped twice.
   */
  lemma {:induction false} EscapeChainPerChar(text: string)
    ensures EscapeChain(text) == EscapeEach(text, EscapeChar)
  {
    if text != [] {
      EscapeChainPerChar(text[1..]);
      assert text == [text[0]] + text[1..];
      EscapeChainAppend([text[0]], text[1..]);
      EscapeChainChar(text[0]);
    }
  }

  lemma {:induction false} EscapedHasNoMarkup(text: string)
    ensures var r := EscapeEach(text, EscapeChar);
      '<' !in r && '>' !in r && '"' !in r && '\'' !in r
  {
    if text != [] {
      EscapedHasNoMarkup(text[1..]);
    }
  }

  /** Escaped text has no '<', '>', '"' or '\'' left, and is the per-character escaping. */
  lemma {:induction false} EscapeHtmlSafe(value: JsValue, numberText: real -> string)
    ensures var r := EscapeHtml(value, numberText);
      '<' !in r && '>' !in r && '"' !in r && '\'' !in r
    ensures value.Undefined? || value.Null? || EscapeHtml(value, numberText) == EscapeEach(ToJsString(value, numberText), EscapeChar)
  {
    if !(value.Undefined? || value.Null?) {
      var s := ToJsString(value, numberText);
      EscapeChainPerChar(s);
      EscapedHasNoMarkup(s);
    }
  }

  lemma {:induction false} AttributePerChar(text: string)
    ensures ReplaceChar(EscapeEach(text, EscapeChar), '\n', " ") == EscapeEach(text, AttributeChar)
  {
    if text != [] {
      AttributePerChar(text[1..]);
      ReplaceAppend(EscapeChar(text[0]), EscapeEach(text[1..], EscapeChar), '\n', " ");
      var c := text[0];
      if c == '\n' {
        assert ReplaceChar([c], '\n', " ") == " " + ReplaceChar([], '\n', " ");
      } else {
        ReplaceSingle(EscapeChar(c), c, '\n', " ");
      }
    }
  }

  lemma {:induction false} AttributeHasNoMarkup(text: string)
    ensures NoMarkup(EscapeEach(text, AttributeChar))
  {
    if text != [] {
      AttributeHasNoMarkup(text[1..]);
      CharHasNoMarkup(text[0]);
      NoMarkupAppend(AttributeChar(text[0]), EscapeEach(text[1..], AttributeChar));
    }
  }

  /** None of the characters that could open a tag, close an attribute or break a line. */
  predicate NoMarkup(r: string)
  {
    '<' !in r && '>' !in r && '"' !in r && '\'' !in r && '\n' !in r
  }

  lemma {:induction false} CharHasNoMarkup(c: char)
    ensures NoMarkup(AttributeChar(c))
  {
    if c == '\n' {
      assert AttributeChar(c) == " ";
    } else if c == '&' {
      assert AttributeChar(c) == "&amp;";
    } else if c == '<' {
      assert AttributeChar(c) == "&lt;";
    } else if c == '>' {
      assert AttributeChar(c) == "&gt;";
    } else if c == '"' {
      assert AttributeChar(c) == "&quot;";
    } else if c == '\'' {
      assert AttributeChar(c) == "&#39;";
    } else {
      assert AttributeChar(c) == [c];
    }
  }

  lemma {:induction false} NoMarkupAppend(a: string, b: string)
    requires NoMarkup(a) && NoMarkup(b)
    ensures NoMarkup(a + b)
  {
  }

  /** An attribute value also loses its line feeds: each becomes a space. */
  lemma {:induction false} EscapeAttributeSafe(value: JsValue, numberText: real -> string)
    ensures NoMarkup(EscapeAttribute(value, numberText))
    ensures value.Undefined? || value.Null?
      || EscapeAttribute(value, numberText) == EscapeEach(ToJsString(value, numberText), AttributeChar)
  {
    if !(value.Undefined? || value.Null?) {
      var s := ToJsString(value, numberText);
      EscapeChainPerChar(s);
      AttributePerChar(s);
      AttributeHasNoMarkup(s);
    } else {
      assert EscapeAttribute(value, numberText) == ReplaceChar("", '\n', " ");
    }
  }
}
