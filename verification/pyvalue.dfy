/**
 * The values of a JSON document as Python's `json.load` builds them, plus
 * the `datetime` objects the event records hold at run time, and the few
 * built-in behaviours the helpers rely on: truthiness, `dict.get`, item
 * assignment and `pop` on an insertion-ordered dict, `float(x)`, `str(x)`,
 * and the breadth-first walk the extractors make with a `deque`.
 *
 * A dict is a sequence of key/value entries in insertion order with distinct
 * keys. Floats are finite and stand as reals; the text of `float(s)` for a
 * string `s` and of `str(x)` for floats, lists, dicts and datetimes are
 * library behaviour and come in as parameters.
 */
module PyValue {
  import opened Wrappers
  import opened Text

  datatype Value =
    | Null
    | Bool(b: bool)
    | Int(i: int)
    | Float(f: real)
    | Str(s: string)
    | List(items: seq<Value>)
    | Dict(entries: seq<(string, Value)>)
    | DateTime(iso: string, microsecond: nat)

  /** The entries of a dict, in insertion order. */
  type Entries = seq<(string, Value)>

  // ------------------------------------------------------------------ truthiness

  /** Python's `bool(v)`. */
  predicate Truthy(v: Value)
  {
    match v
    case Null => false
    case Bool(b) => b
    case Int(i) => i != 0
    case Float(f) => f != 0.0
    case Str(s) => s != []
    case List(items) => items != []
    case Dict(entries) => entries != []
    case DateTime(_, _) => true
  }

  /** `a or b`: the first operand when it is truthy, else the second. */
  function Or(a: Value, b: Value): (r: Value)
    ensures Truthy(a) ==> r == a
    ensures !Truthy(a) ==> r == b
  {
    if Truthy(a) then a else b
  }

  // ------------------------------------------------------------------ dicts

  function Keys(d: Entries): (r: seq<string>)
    ensures |r| == |d|
    ensures forall i :: 0 <= i < |d| ==> r[i] == d[i].0
  {
    if d == [] then [] else [d[0].0] + Keys(d[1..])
  }

  /** A dict never holds a key twice. */
  predicate UniqueKeys(d: Entries)
  {
    forall i, j :: 0 <= i < j < |d| ==> d[i].0 != d[j].0
  }

  predicate HasKey(d: Entries, k: string)
  {
    exists i :: 0 <= i < |d| && d[i].0 == k
  }

  /** `d[k]` when `k in d`, else `None`. */
  function Get(d: Entries, k: string): (r: Option<Value>)
    ensures r.None? <==> !HasKey(d, k)
    ensures r.Some? ==> (k, r.value) in d
  {
    if d == [] then None
    else if d[0].0 == k then Some(d[0].1)
    else
      var r := Get(d[1..], k);
      assert HasKey(d[1..], k) ==> HasKey(d, k) by {
        if HasKey(d[1..], k) {
          var i :| 0 <= i < |d[1..]| && d[1..][i].0 == k;
          assert d[i + 1].0 == k;
        }
      }
      r
  }

  /** `d.get(k)`: the value, or `None` for a missing key. */
  function GetOrNull(d: Entries, k: string): Value
  {
    var r := Get(d, k);
    if r.Some? then r.value else Null
  }

  /** `d[k] = v`: an existing key keeps its place, a new key goes last. */
  function Assign(d: Entries, k: string, v: Value): (r: Entries)
    ensures HasKey(d, k) ==> Keys(r) == Keys(d)
    ensures !HasKey(d, k) ==> Keys(r) == Keys(d) + [k]
  {
    if d == [] then [(k, v)]
    else if d[0].0 == k then [(k, v)] + d[1..]
    else
      assert HasKey(d, k) <==> HasKey(d[1..], k) by {
        if HasKey(d, k) {
          var i :| 0 <= i < |d| && d[i].0 == k;
          assert d[1..][i - 1].0 == k;
        }
        if HasKey(d[1..], k) {
          var i :| 0 <= i < |d[1..]| && d[1..][i].0 == k;
          assert d[i + 1].0 == k;
        }
      }
      [d[0]] + Assign(d[1..], k, v)
  }

  /** `d.pop(k, None)`: the entry of `k` leaves, the others keep their order. */
  function Remove(d: Entries, k: string): (r: Entries)
    ensures |r| <= |d|
    ensures forall i :: 0 <= i < |r| ==> r[i] in d && r[i].0 != k
  {
    if d == [] then []
    else if d[0].0 == k then Remove(d[1..], k)
    else [d[0]] + Remove(d[1..], k)
  }

  lemma {:induction false} AssignGet(d: Entries, k: string, v: Value, j: string)
    ensures Get(Assign(d, k, v), j) == if j == k then Some(v) else Get(d, j)
  {
    if d != [] && d[0].0 != k {
      AssignGet(d[1..], k, v, j);
    }
  }

  lemma {:induction false} AssignUnique(d: Entries, k: string, v: Value)
    requires UniqueKeys(d)
    ensures UniqueKeys(Assign(d, k, v))
  {
    var r := Assign(d, k, v);
    assert Keys(r) == Keys(d) || Keys(r) == Keys(d) + [k];
    if !HasKey(d, k) {
      forall i, j | 0 <= i < j < |r|
        ensures r[i].0 != r[j].0
      {
        assert Keys(r)[i] == r[i].0 && Keys(r)[j] == r[j].0;
        if j == |d| {
          assert r[i].0 == d[i].0;
        } else {
          assert r[i].0 == d[i].0 && r[j].0 == d[j].0;
        }
      }
    } else {
      forall i, j | 0 <= i < j < |r|
        ensures r[i].0 != r[j].0
      {
        assert Keys(r)[i] == Keys(d)[i] && Keys(r)[j] == Keys(d)[j];
      }
    }
  }

  lemma {:induction false} RemoveGet(d: Entries, k: string, j: string)
    ensures Get(Remove(d, k), j) == if j == k then None else Get(d, j)
  {
    if d != [] {
      RemoveGet(d[1..], k, j);
    }
  }

  /** `d.get(k, fallback)`: the value, or `fallback` for a missing key. */
  function GetOr(d: Entries, k: string, fallback: Value): (r: Value)
    ensures HasKey(d, k) ==> Get(d, k) == Some(r)
    ensures !HasKey(d, k) ==> r == fallback
  {
    var r := Get(d, k);
    if r.Some? then r.value else fallback
  }

  /** A key not yet present goes at the end. */
  lemma {:induction false} AssignAppends(d: Entries, k: string, v: Value)
    requires !HasKey(d, k)
    ensures Assign(d, k, v) == d + [(k, v)]
  {
    if d != [] {
      AssignAppends(d[1..], k, v);
    }
  }

  lemma {:induction false} RemoveUnique(d: Entries, k: string)
    requires UniqueKeys(d)
    ensures UniqueKeys(Remove(d, k))
  {
    if d != [] {
      RemoveUnique(d[1..], k);
      var r := Remove(d, k);
      if d[0].0 != k {
        forall j | 0 < j < |r|
          ensures r[0].0 != r[j].0
        {
          var e := r[j];
          assert e in Remove(d[1..], k);
          var m :| 0 <= m < |d[1..]| && d[1..][m] == e;
          assert d[m + 1] == e;
        }
      }
    }
  }

  // ------------------------------------------------------------------ conversions

  /**
   * `float(v)`, `None` where Python raises `TypeError` or `ValueError`. The
   * parsing of a string is the parameter `floatOf`.
   */
  function ToFloat(v: Value, floatOf: string -> Option<real>): (r: Option<real>)
    ensures v.Bool? ==> r == Some(if v.b then 1.0 else 0.0)
    ensures v.Int? ==> r == Some(v.i as real)
    ensures v.Float? ==> r == Some(v.f)
    ensures v.Str? ==> r == floatOf(v.s)
    ensures v.Null? || v.List? || v.Dict? || v.DateTime? ==> r.None?
  {
    match v
    case Bool(b) => Some(if b then 1.0 else 0.0)
    case Int(i) => Some(i as real)
    case Float(f) => Some(f)
    case Str(s) => floatOf(s)
    case _ => None
  }

  /** Python's `int(f)` for a float: the integer part, rounded toward zero. */
  function Truncate(f: real): (n: int)
    ensures 0.0 <= f ==> n as real <= f < n as real + 1.0
    ensures f < 0.0 ==> n as real - 1.0 < f <= n as real
  {
    if 0.0 <= f then f.Floor else -((-f).Floor)
  }

  /**
   * `int(v)`, `None` where Python raises `TypeError` or `ValueError`: a bool
   * counts as 0 or 1, a float is truncated and a string is parsed.
   */
  function ToInt(v: Value): (r: Option<int>)
    ensures v.Bool? ==> r == Some(if v.b then 1 else 0)
    ensures v.Int? ==> r == Some(v.i)
    ensures v.Float? ==> r.Some? && r.value == Truncate(v.f)
    ensures v.Str? ==> r == ParseInt(v.s)
    ensures v.Null? || v.List? || v.Dict? || v.DateTime? ==> r.None?
  {
    match v
    case Bool(b) => Some(if b then 1 else 0)
    case Int(i) => Some(i)
    case Float(f) => Some(Truncate(f))
    case Str(s) => ParseInt(s)
    case _ => None
  }

  /**
   * `str(v)`. The text of a float, a list, a dict or a datetime is the
   * parameter `repr`.
   */
  function StrOf(v: Value, repr: Value -> string): (r: string)
    ensures v.Str? ==> r == v.s
    ensures v.Int? ==> r == IntToString(v.i)
  {
    match v
    case Null => "None"
    case Bool(b) => if b then "True" else "False"
    case Int(i) => IntToString(i)
    case Str(s) => s
    case _ => repr(v)
  }

  // ------------------------------------------------------------------ breadth-first walk

  /** The number of nodes of the tree `v`. */
  function Size(v: Value): (n: nat)
    ensures n >= 1
  {
    match v
    case List(items) => 1 + ItemsSize(items)
    case Dict(entries) => 1 + EntriesSize(entries)
    case _ => 1
  }

  function ItemsSize(items: seq<Value>): nat
  {
    if items == [] then 0 else Size(items[0]) + ItemsSize(items[1..])
  }

  function EntriesSize(entries: Entries): nat
  {
    if entries == [] then 0
    else
      var (_, v) := entries[0];
      assert v < entries[0];
      Size(v) + EntriesSize(entries[1..])
  }

  function Values(d: Entries): (r: seq<Value>)
    ensures |r| == |d|
    ensures forall i :: 0 <= i < |d| ==> r[i] == d[i].1
  {
    if d == [] then [] else [d[0].1] + Values(d[1..])
  }

  /** What the walk enqueues after visiting `v`: a dict's values or a list's items. */
  function Children(v: Value): seq<Value>
  {
    match v
    case List(items) => items
    case Dict(entries) => Values(entries)
    case _ => []
  }

  lemma {:induction false} ItemsSizeAppend(a: seq<Value>, b: seq<Value>)
    ensures ItemsSize(a + b) == ItemsSize(a) + ItemsSize(b)
  {
    if a == [] {
      assert a + b == b;
    } else {
      assert (a + b)[1..] == a[1..] + b;
      ItemsSizeAppend(a[1..], b);
    }
  }

  lemma {:induction false} EntriesSizeValues(d: Entries)
    ensures ItemsSize(Values(d)) == EntriesSize(d)
  {
    if d != [] {
      assert Values(d)[1..] == Values(d[1..]);
      EntriesSizeValues(d[1..]);
    }
  }

  /** Visiting a node replaces it by its children, which are smaller altogether. */
  lemma {:induction false} ChildrenSmaller(v: Value)
    ensures ItemsSize(Children(v)) < Size(v)
  {
    if v.Dict? {
      EntriesSizeValues(v.entries);
    }
  }

  lemma {:induction false} QueueShrinks(queue: seq<Value>)
    requires queue != []
    ensures ItemsSize(queue[1..] + Children(queue[0])) < ItemsSize(queue)
  {
    ItemsSizeAppend(queue[1..], Children(queue[0]));
    ChildrenSmaller(queue[0]);
  }

  /**
   * The order in which a `deque` walk started from `queue` visits nodes:
   * pop the front, push its children at the back.
   */
  function BfsOrder(queue: seq<Value>): (r: seq<Value>)
    ensures queue != [] ==> r != [] && r[0] == queue[0]
    decreases ItemsSize(queue)
  {
    if queue == [] then []
    else
      QueueShrinks(queue);
      [queue[0]] + BfsOrder(queue[1..] + Children(queue[0]))
  }

  /** The walk visits every node it started from, the start nodes first in order. */
  lemma {:induction false} BfsVisitsQueue(queue: seq<Value>)
    ensures |queue| <= |BfsOrder(queue)|
    ensures BfsOrder(queue)[..|queue|] == queue
    decreases ItemsSize(queue)
  {
    if queue != [] {
      QueueShrinks(queue);
      var rest := queue[1..] + Children(queue[0]);
      var b := BfsOrder(rest);
      assert BfsOrder(queue) == [queue[0]] + b;
      BfsVisitsQueue(rest);
      assert b[..|queue| - 1] == rest[..|queue| - 1] == queue[1..];
      assert ([queue[0]] + b)[..|queue|] == [queue[0]] + b[..|queue| - 1];
    }
  }

  /** Every child of a visited node is visited too. */
  lemma {:induction false} BfsVisitsChildren(queue: seq<Value>, i: nat, c: nat)
    requires i < |BfsOrder(queue)| && c < |Children(BfsOrder(queue)[i])|
    ensures Children(BfsOrder(queue)[i])[c] in BfsOrder(queue)
    decreases ItemsSize(queue)
  {
    QueueShrinks(queue);
    var rest := queue[1..] + Children(queue[0]);
    assert BfsOrder(queue) == [queue[0]] + BfsOrder(rest);
    BfsVisitsQueue(rest);
    if i == 0 {
      assert rest[|queue| - 1 + c] == Children(queue[0])[c];
      assert BfsOrder(rest)[|queue| - 1 + c] == rest[|queue| - 1 + c];
      assert BfsOrder(queue)[1 + |queue| - 1 + c] == rest[|queue| - 1 + c];
    } else {
      BfsVisitsChildren(rest, i - 1, c);
    }
  }

  /** A dict's value is part of the dict. */
  lemma {:induction false} GetSmaller(d: Entries, k: string)
    requires Get(d, k).Some?
    ensures Get(d, k).value < Dict(d)
  {
    var e := (k, Get(d, k).value);
    var i :| 0 <= i < |d| && d[i] == e;
    assert d[i].1 < d[i];
  }

  // ------------------------------------------------------------------ first match in a walk

  /** The first hit among the entries of a dict, in order. */
  function EntryHit<T>(entries: Entries, hit: (string, Value) -> Option<T>): Option<T>
  {
    if entries == [] then None
    else
      var h := hit(entries[0].0, entries[0].1);
      if h.Some? then h else EntryHit(entries[1..], hit)
  }

  /** The first hit among a node's entries; only dicts have entries. */
  function NodeHit<T>(v: Value, hit: (string, Value) -> Option<T>): Option<T>
  {
    if v.Dict? then EntryHit(v.entries, hit) else None
  }

  /** The first hit of the first node that has one. */
  function FirstHit<T>(nodes: seq<Value>, hit: (string, Value) -> Option<T>): Option<T>
  {
    if nodes == [] then None
    else
      var h := NodeHit(nodes[0], hit);
      if h.Some? then h else FirstHit(nodes[1..], hit)
  }

  /** The hit found is the hit of the earliest entry that has one. */
  lemma {:induction false} EntryHitFirst<T>(entries: Entries, hit: (string, Value) -> Option<T>)
    ensures EntryHit(entries, hit).None? <==> forall j :: 0 <= j < |entries| ==> hit(entries[j].0, entries[j].1).None?
    ensures EntryHit(entries, hit).Some? ==>
      exists j :: 0 <= j < |entries| && hit(entries[j].0, entries[j].1) == EntryHit(entries, hit) &&
        forall e :: 0 <= e < j ==> hit(entries[e].0, entries[e].1).None?
  {
    if entries != [] && hit(entries[0].0, entries[0].1).None? {
      var rest := entries[1..];
      EntryHitFirst(rest, hit);
      assert forall j :: 0 < j < |entries| ==> entries[j] == rest[j - 1];
      if EntryHit(rest, hit).Some? {
        var j :| 0 <= j < |rest| && hit(rest[j].0, rest[j].1) == EntryHit(rest, hit) &&
          forall e :: 0 <= e < j ==> hit(rest[e].0, rest[e].1).None?;
        assert hit(entries[j + 1].0, entries[j + 1].1) == EntryHit(entries, hit);
        forall e | 0 < e < j + 1
          ensures hit(entries[e].0, entries[e].1).None?
        {
          assert entries[e] == rest[e - 1];
        }
      }
    }
  }

  /** The hit found is the hit of the earliest node that has one. */
  lemma {:induction false} FirstHitFirst<T>(nodes: seq<Value>, hit: (string, Value) -> Option<T>)
    ensures FirstHit(nodes, hit).None? <==> forall i :: 0 <= i < |nodes| ==> NodeHit(nodes[i], hit).None?
    ensures FirstHit(nodes, hit).Some? ==>
      exists i :: 0 <= i < |nodes| && NodeHit(nodes[i], hit) == FirstHit(nodes, hit) &&
        forall e :: 0 <= e < i ==> NodeHit(nodes[e], hit).None?
  {
    if nodes != [] && NodeHit(nodes[0], hit).None? {
      var rest := nodes[1..];
      FirstHitFirst(rest, hit);
      assert forall i :: 0 < i < |nodes| ==> nodes[i] == rest[i - 1];
      if FirstHit(rest, hit).Some? {
        var i :| 0 <= i < |rest| && NodeHit(rest[i], hit) == FirstHit(rest, hit) &&
          forall e :: 0 <= e < i ==> NodeHit(rest[e], hit).None?;
        assert NodeHit(nodes[i + 1], hit) == FirstHit(nodes, hit);
        forall e | 0 < e < i + 1
          ensures NodeHit(nodes[e], hit).None?
        {
          assert nodes[e] == rest[e - 1];
        }
      }
    }
  }

  /**
   * The walk both Ride with GPS and Garmin payloads get: pop the front of
   * the queue; for a dict, test each entry in order and return at the
   * first hit, enqueuing each value tested; for a list, enqueue its items.
   * The result is the first hit in breadth-first order.
   */
  method SearchEntries<T>(payload: Value, hit: (string, Value) -> Option<T>) returns (r: Option<T>)
    ensures r == FirstHit(BfsOrder([payload]), hit)
  {
    var queue := [payload];
    while queue != []
      invariant FirstHit(BfsOrder(queue), hit) == FirstHit(BfsOrder([payload]), hit)
      decreases ItemsSize(queue)
    {
      ghost var before := queue;
      QueueShrinks(before);
      var current := queue[0];
      var rest := queue[1..];
      ghost var order := BfsOrder(rest + Children(current));
      assert BfsOrder(before) == [current] + order;
      assert ([current] + order)[1..] == order;
      if current.Dict? {
        var h;
        h, queue := ScanEntries(current.entries, hit, rest);
        if h.Some? {
          return h;
        }
      } else if current.List? {
        queue := rest + current.items;
      } else {
        queue := rest;
      }
      assert queue == rest + Children(current);
      assert NodeHit(current, hit).None?;
      assert FirstHit([current] + order, hit) == FirstHit(order, hit);
    }
    return None;
  }

  /**
   * The inner loop of the walk over one dict: the first entry hit, and
   * until one is found each tested value appended to the queue.
   */
  method ScanEntries<T>(entries: Entries, hit: (string, Value) -> Option<T>, queue: seq<Value>)
    returns (h: Option<T>, after: seq<Value>)
    ensures h == EntryHit(entries, hit)
    ensures h.None? ==> after == queue + Values(entries)
  {
    after := queue;
    for i := 0 to |entries|
      invariant after == queue + Values(entries[..i])
      invariant EntryHit(entries, hit) == EntryHit(entries[i..], hit)
    {
      h := hit(entries[i].0, entries[i].1);
      if h.Some? {
        return;
      }
      assert entries[i..][1..] == entries[i + 1..];
      assert Values(entries[..i + 1]) == Values(entries[..i]) + [entries[i].1];
      after := after + [entries[i].1];
    }
    assert entries[..|entries|] == entries;
    assert entries[|entries|..] == [];
    h := None;
  }
}
