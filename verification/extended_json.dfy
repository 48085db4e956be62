/**
 * The Mongo Extended JSON helpers the event scripts share
 * (`utils/event_storage.py`, `update_strava_events.py` and
 * `dehydrate_events.py` each carry a copy): the `$numberLong` wrapper and its
 * inverse, the `$date` wrapper with its millisecond-padded ISO text, the
 * picture URL fields turned into lists of strings, and `clean_dict`, which
 * drops `None` values from a document and from every dict nested in it
 * (dicts held inside a list are left as they are).
 */
module ExtendedJson {
  import opened Wrappers
  import opened Text
  import opened PyValue
  import opened Sequences

  // ------------------------------------------------------------------ $numberLong

  /**
   * `wrap_number_long`: `None` stays `None`, a dict that already holds
   * `$numberLong` is returned as it is, anything else becomes
   * `{"$numberLong": str(value)}`.
   */
  function WrapNumberLong(v: Value, repr: Value -> string): (r: Value)
    ensures v.Null? <==> r.Null?
    ensures !v.Null? ==> r.Dict? && HasKey(r.entries, "$numberLong")
  {
    if v.Null? then Null
    else if v.Dict? && HasKey(v.entries, "$numberLong") then v
    else
      var entries := [("$numberLong", Str(StrOf(v, repr)))];
      assert entries[0].0 == "$numberLong";
      Dict(entries)
  }

  /** Wrapping twice is wrapping once. */
  lemma {:induction false} WrapNumberLongIdempotent(v: Value, repr: Value -> string)
    ensures WrapNumberLong(WrapNumberLong(v, repr), repr) == WrapNumberLong(v, repr)
  {
  }

  /**
   * `unwrap_number_long` (`utils/event_storage.py`): for a dict, the
   * `$numberLong` value, or `$oid` when that one is falsy; a value `int()`
   * accepts becomes that integer and any other is returned as it is. A dict
   * with neither, and every non-dict, comes back unchanged.
   */
  function UnwrapNumberLong(v: Value): (r: Value)
    ensures !v.Dict? ==> r == v
    ensures v.Dict? && !Truthy(GetOrNull(v.entries, "$numberLong")) && GetOrNull(v.entries, "$oid").Null? ==> r == v
  {
    if v.Dict? then
      var raw := Or(GetOrNull(v.entries, "$numberLong"), GetOrNull(v.entries, "$oid"));
      if raw.Null? then v
      else
        var n := ToInt(raw);
        if n.Some? then Int(n.value) else raw
    else v
  }

  /** Unwrapping a wrapped integer gives the integer back. */
  lemma {:induction false} UnwrapWrapNumberLong(n: int, repr: Value -> string)
    ensures UnwrapNumberLong(WrapNumberLong(Int(n), repr)) == Int(n)
  {
    var text := IntToString(n);
    var entries := [("$numberLong", Str(text))];
    assert WrapNumberLong(Int(n), repr) == Dict(entries);
    assert Get(entries, "$numberLong") == Some(Str(text));
    UnwrapText(entries, "$numberLong", text);
    ParseIntToString(n);
  }

  /**
   * The text under `$numberLong`, or under `$oid` when `$numberLong` is
   * falsy, becomes the integer `int()` reads from it, or is returned as it
   * is when `int()` rejects it.
   */
  lemma {:induction false} UnwrapText(d: Entries, key: string, text: string)
    requires key == "$numberLong" || (key == "$oid" && !Truthy(GetOrNull(d, "$numberLong")))
    requires Get(d, key) == Some(Str(text)) && text != ""
    ensures UnwrapNumberLong(Dict(d)) == if ParseInt(text).Some? then Int(ParseInt(text).value) else Str(text)
  {
  }

  // ------------------------------------------------------------------ $date

  /**
   * `isoformat_datetime` of `update_strava_events.py` and
   * `dehydrate_events.py`, given the `isoformat()` text and the microseconds
   * of the datetime: when neither shows a fraction, ".000" goes before a
   * trailing "Z", else before the last '+' past index 10, else before the
   * last '-' past index 10, else at the end.
   */
  function IsoWithMillis(iso: string, microsecond: nat): string
  {
    if microsecond == 0 && '.' !in iso then
      if iso != [] && iso[|iso| - 1] == 'Z' then iso[..|iso| - 1] + ".000Z"
      else
        var plus := RFind(iso, '+');
        if plus > 10 then iso[..plus] + ".000+" + iso[plus + 1..]
        else
          var minus := RFind(iso, '-');
          if minus > 10 then iso[..minus] + ".000-" + iso[minus + 1..]
          else iso + ".000"
    else iso
  }

  /**
   * The text is left alone when it has a fraction or the microseconds are
   * not zero; otherwise ".000" is inserted at `p`, which is the end, the
   * place of a trailing "Z", or the place of a zone sign past index 10.
   */
  lemma {:induction false} IsoWithMillisInserts(iso: string, microsecond: nat) returns (p: nat)
    ensures microsecond != 0 || '.' in iso ==> IsoWithMillis(iso, microsecond) == iso
    ensures microsecond == 0 && '.' !in iso ==>
      && p <= |iso|
      && IsoWithMillis(iso, microsecond) == iso[..p] + ".000" + iso[p..]
      && (p == |iso| || (p == |iso| - 1 && iso[p] == 'Z') || (p > 10 && (iso[p] == '+' || iso[p] == '-')))
  {
    p := |iso|;
    if microsecond == 0 && '.' !in iso {
      if iso != [] && iso[|iso| - 1] == 'Z' {
        p := |iso| - 1;
        SpliceAt(iso, p);
        assert iso[p + 1..] == [];
      } else if RFind(iso, '+') > 10 {
        p := RFind(iso, '+');
        SpliceAt(iso, p);
      } else if RFind(iso, '-') > 10 {
        p := RFind(iso, '-');
        SpliceAt(iso, p);
      } else {
        assert iso[..p] == iso && iso[p..] == [];
      }
    }
  }

  lemma {:induction false} SpliceAt(iso: string, p: nat)
    requires p < |iso|
    ensures iso[..p] + ['.', '0', '0', '0', iso[p]] + iso[p + 1..] == iso[..p] + ".000" + iso[p..]
  {
    assert iso[p..] == [iso[p]] + iso[p + 1..];
  }

  /** Padding an already padded text changes nothing. */
  lemma {:induction false} IsoWithMillisIdempotent(iso: string, microsecond: nat)
    ensures IsoWithMillis(IsoWithMillis(iso, microsecond), microsecond) == IsoWithMillis(iso, microsecond)
  {
    var p := IsoWithMillisInserts(iso, microsecond);
    if microsecond == 0 && '.' !in iso {
      var r := IsoWithMillis(iso, microsecond);
      assert r[p] == '.';
    }
  }

  /**
   * `wrap_date` of `update_strava_events.py` and `dehydrate_events.py`:
   * `None` stays `None`, a dict holding `$date` is returned as it is, a
   * datetime becomes `{"$date": isoformat_datetime(value)}` and anything
   * else `{"$date": str(value)}`.
   */
  function WrapDate(v: Value, repr: Value -> string): (r: Value)
    ensures v.Null? <==> r.Null?
    ensures !v.Null? ==> r.Dict? && HasKey(r.entries, "$date")
  {
    if v.Null? then Null
    else if v.Dict? && HasKey(v.entries, "$date") then v
    else if v.DateTime? then
      var entries := [("$date", Str(IsoWithMillis(v.iso, v.microsecond)))];
      assert entries[0].0 == "$date";
      Dict(entries)
    else
      var entries := [("$date", Str(StrOf(v, repr)))];
      assert entries[0].0 == "$date";
      Dict(entries)
  }

  /** Wrapping twice is wrapping once. */
  lemma {:induction false} WrapDateIdempotent(v: Value, repr: Value -> string)
    ensures WrapDate(WrapDate(v, repr), repr) == WrapDate(v, repr)
  {
  }

  // ------------------------------------------------------------------ lists of strings

  /** The items `item not in (None, "")` keeps. */
  predicate NotBlank(v: Value)
  {
    !v.Null? && v != Str("")
  }

  /** `[str(item) for item in items if keep(item)]`. */
  function KeepAsText(items: seq<Value>, keep: Value -> bool, repr: Value -> string): (r: seq<string>)
    ensures |r| <= |items|
  {
    if items == [] then []
    else (if keep(items[0]) then [StrOf(items[0], repr)] else []) + KeepAsText(items[1..], keep, repr)
  }

  /**
   * `ensure_list_of_strings`: `None` gives no strings, a list the text of
   * each item `keep` accepts, anything else its own text. `keep` is
   * `NotBlank` in `utils/event_storage.py` and `Truthy` in the two other
   * scripts.
   */
  function StringList(v: Value, keep: Value -> bool, repr: Value -> string): (r: seq<string>)
    ensures v.Null? ==> r == []
    ensures !v.Null? && !v.List? ==> r == [StrOf(v, repr)]
    ensures v.List? ==> r == KeepAsText(v.items, keep, repr)
  {
    if v.Null? then []
    else if v.List? then KeepAsText(v.items, keep, repr)
    else [StrOf(v, repr)]
  }

  /** Each string comes from an accepted item. */
  lemma {:induction false} KeepAsTextSource(items: seq<Value>, keep: Value -> bool, repr: Value -> string, k: nat)
    returns (i: nat)
    requires k < |KeepAsText(items, keep, repr)|
    ensures i < |items| && keep(items[i]) && KeepAsText(items, keep, repr)[k] == StrOf(items[i], repr)
  {
    if keep(items[0]) && k == 0 {
      i := 0;
    } else {
      i := KeepAsTextSource(items[1..], keep, repr, if keep(items[0]) then k - 1 else k);
      i := i + 1;
    }
  }

  /** The strings keep the items' order: the list splits as the items do. */
  lemma {:induction false} KeepAsTextAppend(a: seq<Value>, b: seq<Value>, keep: Value -> bool, repr: Value -> string)
    ensures KeepAsText(a + b, keep, repr) == KeepAsText(a, keep, repr) + KeepAsText(b, keep, repr)
  {
    if a == [] {
      assert a + b == b;
    } else {
      KeepAsTextAppend(a[1..], b, keep, repr);
      var head := if keep(a[0]) then [StrOf(a[0], repr)] else [];
      assert (a + b)[1..] == a[1..] + b;
      assert KeepAsText(a + b, keep, repr) == head + KeepAsText(a[1..] + b, keep, repr);
      AppendAssoc(head, KeepAsText(a[1..], keep, repr), KeepAsText(b, keep, repr));
    }
  }

  /** When every item is accepted, there is one string per item. */
  lemma {:induction false} KeepAsTextAll(items: seq<Value>, keep: Value -> bool, repr: Value -> string)
    requires forall i :: 0 <= i < |items| ==> keep(items[i])
    ensures var r := KeepAsText(items, keep, repr);
      |r| == |items| && forall i :: 0 <= i < |items| ==> r[i] == StrOf(items[i], repr)
  {
    if items != [] {
      KeepAsTextAll(items[1..], keep, repr);
    }
  }

  /**
   * The two versions differ on falsy items other than `None` and "": a
   * zero is kept by `utils/event_storage.py` and dropped by the others.
   */
  lemma {:induction false} ZeroItem(repr: Value -> string)
    ensures StringList(List([Int(0)]), NotBlank, repr) == ["0"]
    ensures StringList(List([Int(0)]), Truthy, repr) == []
  {
    assert [Int(0)][1..] == [];
  }

  // ------------------------------------------------------------------ clean_dict

  /**
   * What `clean_dict` stores for a value, or `None` when it stores nothing:
   * `None` is dropped, a dict is cleaned and dropped when that leaves it
   * empty, a list loses its `None` and "" items, anything else is kept.
   */
  function CleanValue(v: Value): (r: Option<Value>)
    decreases Size(v), 0
  {
    match v
    case Null => None
    case Dict(entries) =>
      var nested := CleanInto([], entries);
      if nested == [] then None else Some(Dict(nested))
    case List(items) => Some(List(Filter(items, NotBlank)))
    case _ => Some(v)
  }

  /**
   * The loop of `clean_dict`, continued from the dict `acc` built so far
   * over the entries `d` still to visit: each value that survives is
   * assigned under its key.
   */
  function CleanInto(acc: Entries, d: Entries): Entries
    decreases EntriesSize(d), 1
  {
    if d == [] then acc
    else
      var (k, v) := d[0];
      assert Size(v) <= EntriesSize(d);
      var c := CleanValue(v);
      CleanInto(if c.Some? then Assign(acc, k, c.value) else acc, d[1..])
  }

  /** `clean_dict(data)`. */
  function Cleaned(data: Entries): Entries
  {
    CleanInto([], data)
  }

  /**
   * A clean value: not `None`, a dict with distinct keys that is non-empty
   * and clean itself, or a list without `None` or "" items.
   */
  predicate CleanLeaf(v: Value)
    decreases Size(v), 0
  {
    match v
    case Null => false
    case Dict(entries) => entries != [] && UniqueKeys(entries) && IsClean(entries)
    case List(items) => forall i :: 0 <= i < |items| ==> NotBlank(items[i])
    case _ => true
  }

  /** Every value of `d` is clean: no `None` in `d` or in any dict nested in it, lists aside. */
  predicate IsClean(d: Entries)
    decreases EntriesSize(d), 1
  {
    d == [] || (assert Size(d[0].1) <= EntriesSize(d); CleanLeaf(d[0].1) && IsClean(d[1..]))
  }

  /** `d.get(k)` after `clean_dict`, read from `d` itself. */
  function CleanGet(d: Entries, k: string): Option<Value>
  {
    if Get(d, k).Some? then CleanValue(Get(d, k).value) else None
  }

  /**
   * `clean_dict` works in place of `d`: the dict it is given, unchanged
   * where a key's value does not survive, assigned where it does.
   */
  lemma {:induction false} CleanIntoGet(acc: Entries, d: Entries, k: string)
    requires UniqueKeys(d)
    ensures Get(CleanInto(acc, d), k) ==
      if CleanGet(d, k).Some? then CleanGet(d, k) else Get(acc, k)
    decreases |d|
  {
    if d != [] {
      var (k0, v0) := d[0];
      var c := CleanValue(v0);
      var next := if c.Some? then Assign(acc, k0, c.value) else acc;
      CleanIntoGet(next, d[1..], k);
      if c.Some? {
        AssignGet(acc, k0, c.value, k);
      }
      if k == k0 {
        assert !HasKey(d[1..], k);
      }
    }
  }

  /**
   * Each key of the cleaned dict reads what cleaning made of its value; a
   * key whose value was `None` or cleaned to an empty dict is absent.
   */
  lemma {:induction false} CleanedGet(d: Entries, k: string)
    requires UniqueKeys(d)
    ensures Get(Cleaned(d), k) == CleanGet(d, k)
  {
    CleanIntoGet([], d, k);
  }

  lemma {:induction false} CleanIntoUnique(acc: Entries, d: Entries)
    requires UniqueKeys(acc)
    ensures UniqueKeys(CleanInto(acc, d))
    decreases |d|
  {
    if d != [] {
      var c := CleanValue(d[0].1);
      if c.Some? {
        AssignUnique(acc, d[0].0, c.value);
      }
      CleanIntoUnique(if c.Some? then Assign(acc, d[0].0, c.value) else acc, d[1..]);
    }
  }

  lemma {:induction false} AssignClean(acc: Entries, k: string, v: Value)
    requires IsClean(acc) && CleanLeaf(v)
    ensures IsClean(Assign(acc, k, v))
  {
    var r := Assign(acc, k, v);
    if acc == [] {
      assert r[1..] == [];
    } else if acc[0].0 == k {
      assert r[1..] == acc[1..];
    } else {
      AssignClean(acc[1..], k, v);
      assert r[1..] == Assign(acc[1..], k, v);
    }
  }

  /** Whatever `clean_dict` stores is clean. */
  lemma {:induction false} CleanValueClean(v: Value)
    requires CleanValue(v).Some?
    ensures CleanLeaf(CleanValue(v).value)
    decreases Size(v), 0
  {
    match v
    case Dict(entries) =>
      CleanIntoClean([], entries);
      CleanIntoUnique([], entries);
    case List(items) =>
      var kept := Filter(items, NotBlank);
      FilterRejectMembers(items, NotBlank);
      assert forall i :: 0 <= i < |kept| ==> kept[i] in kept;
    case _ =>
  }

  lemma {:induction false} CleanIntoClean(acc: Entries, d: Entries)
    requires IsClean(acc)
    ensures IsClean(CleanInto(acc, d))
    decreases EntriesSize(d), 1
  {
    if d != [] {
      var (k, v) := d[0];
      assert Size(v) <= EntriesSize(d);
      var c := CleanValue(v);
      if c.Some? {
        CleanValueClean(v);
        AssignClean(acc, k, c.value);
      }
      CleanIntoClean(if c.Some? then Assign(acc, k, c.value) else acc, d[1..]);
    }
  }

  /**
   * No value of the cleaned dict, or of a dict nested in it, is `None`, and
   * its keys are distinct; dicts inside lists are not cleaned.
   */
  lemma {:induction false} CleanedClean(d: Entries)
    ensures IsClean(Cleaned(d)) && UniqueKeys(Cleaned(d))
  {
    CleanIntoClean([], d);
    CleanIntoUnique([], d);
  }

  /** A clean value is stored as it is. */
  lemma {:induction false} CleanValueFixed(v: Value)
    requires CleanLeaf(v)
    ensures CleanValue(v) == Some(v)
    decreases Size(v), 0
  {
    match v
    case Dict(entries) =>
      CleanIntoFixed([], entries);
      assert [] + entries == entries;
    case List(items) =>
      FilterAll(items, NotBlank);
    case _ =>
  }

  /** Cleaning clean entries with distinct keys appends them unchanged. */
  lemma {:induction false} CleanIntoFixed(acc: Entries, d: Entries)
    requires IsClean(d) && UniqueKeys(acc + d)
    ensures CleanInto(acc, d) == acc + d
    decreases EntriesSize(d), 1
  {
    if d != [] {
      var (k, v) := d[0];
      assert Size(v) <= EntriesSize(d);
      CleanValueFixed(v);
      forall i | 0 <= i < |acc|
        ensures acc[i].0 != k
      {
        assert (acc + d)[i] == acc[i] && (acc + d)[|acc|] == d[0];
      }
      AssignAppends(acc, k, v);
      assert (acc + [(k, v)]) + d[1..] == acc + d;
      CleanIntoFixed(acc + [(k, v)], d[1..]);
    }
  }

  /** `clean_dict` is idempotent. */
  lemma {:induction false} CleanedIdempotent(d: Entries)
    ensures Cleaned(Cleaned(d)) == Cleaned(d)
  {
    var c := Cleaned(d);
    CleanedClean(d);
    assert [] + c == c;
    CleanIntoFixed([], c);
  }

  /** With keys not in `d`, the loop appends to `acc` what it would build from nothing. */
  lemma {:induction false} CleanIntoAppends(acc: Entries, d: Entries)
    requires UniqueKeys(d)
    requires forall i, j :: 0 <= i < |acc| && 0 <= j < |d| ==> acc[i].0 != d[j].0
    ensures CleanInto(acc, d) == acc + Cleaned(d)
    decreases |d|
  {
    if d != [] {
      var c := CleanValue(d[0].1);
      var step: Entries := if c.Some? then [(d[0].0, c.value)] else [];
      CleanIntoStep(acc, d, step);
      CleanIntoStep([], d, step);
      DisjointTail(acc, d, step);
      DisjointTail([], d, step);
      CleanIntoAppends(acc + step, d[1..]);
      CleanIntoAppends(step, d[1..]);
      AppendAssoc(acc, step, Cleaned(d[1..]));
    } else {
      assert acc + [] == acc;
    }
  }

  /** One entry of `CleanInto`: a kept value is appended, since its key is new to `acc`. */
  lemma {:induction false} CleanIntoStep(acc: Entries, d: Entries, step: Entries)
    requires d != [] && !HasKey(acc, d[0].0)
    requires var c := CleanValue(d[0].1); step == if c.Some? then [(d[0].0, c.value)] else []
    ensures CleanInto(acc, d) == CleanInto(acc + step, d[1..])
  {
    var c := CleanValue(d[0].1);
    if c.Some? {
      AssignAppends(acc, d[0].0, c.value);
    } else {
      assert acc + step == acc;
    }
  }

  /** The keys after the first entry are distinct and new to `acc` and to the first entry's output. */
  lemma {:induction false} DisjointTail(acc: Entries, d: Entries, step: Entries)
    requires d != [] && UniqueKeys(d)
    requires forall i, j :: 0 <= i < |acc| && 0 <= j < |d| ==> acc[i].0 != d[j].0
    requires step == [] || step == [(d[0].0, step[0].1)]
    ensures !HasKey(acc, d[0].0)
    ensures UniqueKeys(d[1..])
    ensures forall i, j :: 0 <= i < |acc + step| && 0 <= j < |d[1..]| ==> (acc + step)[i].0 != d[1..][j].0
  {
    forall i, j | 0 <= i < |acc + step| && 0 <= j < |d[1..]|
      ensures (acc + step)[i].0 != d[1..][j].0
    {
      assert d[1..][j] == d[j + 1];
      if i >= |acc| {
        assert (acc + step)[i].0 == d[0].0;
      }
    }
    forall i, j | 0 <= i < j < |d[1..]|
      ensures d[1..][i].0 != d[1..][j].0
    {
      assert d[1..][i] == d[i + 1] && d[1..][j] == d[j + 1];
    }
  }

  /** The cleaned dict's keys are some of the input's keys, in the same order. */
  lemma {:induction false} CleanedKeys(d: Entries)
    requires UniqueKeys(d)
    ensures IsSubsequence(Keys(Cleaned(d)), Keys(d))
    decreases |d|
  {
    if d != [] {
      var (k, v) := d[0];
      var c := CleanValue(v);
      var step: Entries := if c.Some? then [(k, c.value)] else [];
      if c.Some? {
        AssignAppends([], k, c.value);
      }
      assert forall j :: 0 <= j < |d[1..]| ==> d[1..][j] == d[j + 1];
      CleanIntoAppends(step, d[1..]);
      CleanedKeys(d[1..]);
      var rest := Keys(Cleaned(d[1..]));
      assert Keys(d)[1..] == Keys(d[1..]);
      if c.Some? {
        assert Keys(Cleaned(d)) == [k] + rest;
        assert Keys(Cleaned(d))[1..] == rest;
      } else {
        assert Keys(Cleaned(d)) == rest;
      }
    } else {
      SubsequenceReflexive(Keys(d));
    }
  }

  /**
   * `clean_dict`: one pass over the entries in order, skipping `None`,
   * cleaning a nested dict and storing it only when something is left,
   * filtering a list, and storing anything else as it is.
   */
  method CleanDict(data: Entries) returns (cleaned: Entries)
    ensures cleaned == Cleaned(data)
    decreases EntriesSize(data)
  {
    cleaned := [];
    for i := 0 to |data|
      invariant CleanInto(cleaned, data[i..]) == Cleaned(data)
    {
      var (key, value) := data[i];
      assert data[i..][1..] == data[i + 1..];
      EntrySmaller(data, i);
      if value.Null? {
        continue;
      }
      if value.Dict? {
        var nested := CleanDict(value.entries);
        if nested != [] {
          cleaned := Assign(cleaned, key, Dict(nested));
        }
        continue;
      }
      if value.List? {
        var kept := Filter(value.items, NotBlank);
        cleaned := Assign(cleaned, key, List(kept));
        continue;
      }
      cleaned := Assign(cleaned, key, value);
    }
    assert data[|data|..] == [];
  }

  /** A value of a dict is no larger than the dict's entries. */
  lemma {:induction false} EntrySmaller(d: Entries, i: nat)
    requires i < |d|
    ensures Size(d[i].1) <= EntriesSize(d)
  {
    if i > 0 {
      EntrySmaller(d[1..], i - 1);
    }
  }
}
