/** What a matched route is: the handler, the captured parameters and the path pattern. */
module RouteTypes {
  datatype Handler = Handler(id: nat, path: string)

  datatype RouteMatch = RouteMatch(handler: Handler, params: map<string, string>, path: string, basePath: string)
}

/**
 The route cache as a plain list of entries, most recently used first, and what holds of it
 over every run of operations under a clock that never goes back.
 */
module LruSpec {
  import opened Wrappers
  import opened RouteTypes

  datatype Entry = Entry(key: string, value: RouteMatch, createdAt: int, lastAccess: int)

  datatype Lru = Lru(entries: seq<Entry>, capacity: int, ttl: int, lastCleanup: int, interval: int) {
    predicate Expired(e: Entry, now: int) {
      ttl > 0 && now - e.lastAccess > ttl
    }
  }

  /** Idle for longer than the time to live; a time to live of 0 or less means that nothing expires. */
  ghost predicate Idle(c: Lru, e: Entry, now: int) {
    c.ttl > 0 && e.lastAccess + c.ttl < now
  }

  ghost predicate UniqueKeys(s: seq<Entry>) {
    forall i, j :: 0 <= i < j < |s| ==> s[i].key != s[j].key
  }

  /** The position of the entry with the given key, or -1. */
  function IndexOf(s: seq<Entry>, key: string): (i: int)
    ensures -1 <= i < |s|
    ensures i >= 0 ==> s[i].key == key
    ensures i == -1 ==> forall j :: 0 <= j < |s| ==> s[j].key != key
  {
    if s == [] then -1
    else if s[|s| - 1].key == key then |s| - 1
    else IndexOf(s[..|s| - 1], key)
  }

  /** `s` without its element at position `i`. */
  function Without<T>(s: seq<T>, i: int): seq<T>
    requires 0 <= i < |s|
  {
    seq(|s| - 1, j requires 0 <= j < |s| - 1 => if j < i then s[j] else s[j + 1])
  }

  /** Removal of a single node; an entry under the empty key counts as removed already and stays. */
  function Removed(s: seq<Entry>, i: int): seq<Entry>
    requires 0 <= i < |s|
  {
    if s[i].key == "" then s else Without(s, i)
  }

  /** The entries of `s` that a cleanup at `now` leaves in place. */
  function Live(c: Lru, s: seq<Entry>, now: int): seq<Entry> {
    if s == [] then []
    else
      var last := s[|s| - 1];
      Live(c, s[..|s| - 1], now) + if c.Expired(last, now) && last.key != "" then [] else [last]
  }

  function Cleaned(c: Lru, now: int): Lru {
    if c.ttl <= 0 then c
    else c.(entries := Live(c, c.entries, now))
  }

  function CleanedIfNeeded(c: Lru, now: int): Lru {
    if now - c.lastCleanup > c.interval then Cleaned(c, now).(lastCleanup := now) else c
  }

  /** The entry at `i`, touched at `now`, in front of all others. */
  function Touched(s: seq<Entry>, i: int, value: RouteMatch, now: int): seq<Entry>
    requires 0 <= i < |s|
  {
    [s[i].(value := value, lastAccess := now)] + Without(s, i)
  }

  function Got(c: Lru, key: string, now: int): (Lru, Option<RouteMatch>) {
    Looked(CleanedIfNeeded(c, now), key, now)
  }

  function Looked(c: Lru, key: string, now: int): (Lru, Option<RouteMatch>) {
    var i := IndexOf(c.entries, key);
    if i < 0 then (c, None)
    else if c.Expired(c.entries[i], now) then (c.(entries := Removed(c.entries, i)), None)
    else (c.(entries := Touched(c.entries, i, c.entries[i].value, now)), Some(c.entries[i].value))
  }

  /** Room for one more entry: a full cache gives up its last one. */
  function Evicted(c: Lru): seq<Entry> {
    if |c.entries| >= c.capacity && c.entries != [] then Removed(c.entries, |c.entries| - 1) else c.entries
  }

  function Put(c: Lru, key: string, value: RouteMatch, now: int): Lru {
    var c := CleanedIfNeeded(c, now);
    var i := IndexOf(c.entries, key);
    if i >= 0 then c.(entries := Touched(c.entries, i, value, now))
    else c.(entries := [Entry(key, value, now, now)] + Evicted(c))
  }

  function Cleared(c: Lru, now: int): Lru {
    c.(entries := [], lastCleanup := now)
  }

  // ---------- Runs ----------

  datatype Op =
    | GetOp(key: string)
    | PutOp(key: string, value: RouteMatch)
    | CleanupOp
    | ClearOp
    | SetTtlOp(ttl: int)
    | SetIntervalOp(interval: int)

  datatype Event = Event(op: Op, now: int)

  function Step(c: Lru, ev: Event): Lru {
    match ev.op
    case GetOp(key) => Got(c, key, ev.now).0
    case PutOp(key, value) => Put(c, key, value, ev.now)
    case CleanupOp => Cleaned(c, ev.now)
    case ClearOp => Cleared(c, ev.now)
    case SetTtlOp(ttl) => c.(ttl := ttl)
    case SetIntervalOp(interval) => c.(interval := interval)
  }

  function Run(c: Lru, evs: seq<Event>): Lru {
    if evs == [] then c else Step(Run(c, evs[..|evs| - 1]), evs[|evs| - 1])
  }

  ghost predicate ClockRuns(start: int, evs: seq<Event>) {
    && (forall i :: 0 <= i < |evs| ==> start <= evs[i].now)
    && (forall i, j :: 0 <= i < j < |evs| ==> evs[i].now <= evs[j].now)
  }

  function New(capacity: int, ttl: int, now: int): Lru {
    Lru([], capacity, ttl, now, 300)
  }

  /** Keys are unique and no entry was used after an entry in front of it, nor after `now`. */
  ghost predicate Ordered(s: seq<Entry>, now: int) {
    && UniqueKeys(s)
    && (forall i :: 0 <= i < |s| ==> s[i].lastAccess <= now)
    && (forall i, j :: 0 <= i < j < |s| ==> s[i].lastAccess >= s[j].lastAccess)
  }

  lemma {:induction false} LiveMembers(c: Lru, s: seq<Entry>, now: int, e: Entry)
    ensures e in Live(c, s, now) <==> e in s && !(c.Expired(e, now) && e.key != "")
  {
    if s != [] {
      var init, last := s[..|s| - 1], s[|s| - 1];
      LiveMembers(c, init, now, e);
      assert s == init + [last];
    }
  }

  lemma {:induction false} LiveOrdered(c: Lru, s: seq<Entry>, now: int)
    requires Ordered(s, now)
    ensures Ordered(Live(c, s, now), now) && |Live(c, s, now)| <= |s|
  {
    if s != [] {
      var init, last := s[..|s| - 1], s[|s| - 1];
      var live := Live(c, init, now);
      LiveOrdered(c, init, now);
      forall a | 0 <= a < |live| ensures live[a].key != last.key && live[a].lastAccess >= last.lastAccess {
        LiveMembers(c, init, now, live[a]);
        var i :| 0 <= i < |init| && init[i] == live[a];
        assert s[i] == init[i];
      }
    }
  }

  /**
   A cleanup keeps an entry unless it is idle and has a key. The cleanup before a lookup or a put takes
   place when more than the interval has passed since the last one, and is noted; otherwise nothing changes.
   */
  lemma CleanedMembers(c: Lru, now: int, e: Entry)
    ensures e in Cleaned(c, now).entries <==> e in c.entries && !(Idle(c, e, now) && e.key != "")
    ensures c.lastCleanup + c.interval < now ==>
      CleanedIfNeeded(c, now).lastCleanup == now
      && (e in CleanedIfNeeded(c, now).entries <==> e in c.entries && !(Idle(c, e, now) && e.key != ""))
    ensures c.lastCleanup + c.interval >= now ==> CleanedIfNeeded(c, now) == c
  {
    LiveMembers(c, c.entries, now, e);
  }

  lemma CleanedOrdered(c: Lru, now: int)
    requires Ordered(c.entries, now)
    ensures Ordered(Cleaned(c, now).entries, now) && Ordered(CleanedIfNeeded(c, now).entries, now)
    ensures |Cleaned(c, now).entries| <= |c.entries| && |CleanedIfNeeded(c, now).entries| <= |c.entries|
  {
    LiveOrdered(c, c.entries, now);
  }

  lemma TouchedOrdered(s: seq<Entry>, i: int, value: RouteMatch, now: int)
    requires Ordered(s, now) && 0 <= i < |s|
    ensures Ordered(Touched(s, i, value, now), now) && Ordered(Without(s, i), now)
  {
    var w := Without(s, i);
    forall a, b | 0 <= a < b < |w| ensures w[a].key != w[b].key && w[a].lastAccess >= w[b].lastAccess {
      assert w[a] == s[if a < i then a else a + 1] && w[b] == s[if b < i then b else b + 1];
    }
    forall a | 0 <= a < |w| ensures w[a].key != s[i].key && w[a].lastAccess <= now {
      assert w[a] == s[if a < i then a else a + 1];
    }
  }

  lemma GotOrdered(c: Lru, key: string, now: int)
    requires Ordered(c.entries, now)
    ensures Ordered(Got(c, key, now).0.entries, now)
  {
    CleanedOrdered(c, now);
    var d := CleanedIfNeeded(c, now);
    var i := IndexOf(d.entries, key);
    if i >= 0 {
      TouchedOrdered(d.entries, i, d.entries[i].value, now);
    }
  }

  lemma PutOrdered(c: Lru, key: string, value: RouteMatch, now: int)
    requires Ordered(c.entries, now)
    ensures Ordered(Put(c, key, value, now).entries, now)
  {
    CleanedOrdered(c, now);
    var d := CleanedIfNeeded(c, now);
    hide CleanedIfNeeded;
    var i := IndexOf(d.entries, key);
    if i >= 0 {
      TouchedOrdered(d.entries, i, value, now);
    } else if d.entries != [] {
      TouchedOrdered(d.entries, |d.entries| - 1, value, now);
    }
  }

  lemma StepOrdered(c: Lru, ev: Event, before: int)
    requires Ordered(c.entries, before) && before <= ev.now
    ensures Ordered(Step(c, ev).entries, ev.now)
  {
    match ev.op
    case GetOp(key) => GotOrdered(c, key, ev.now);
    case PutOp(key, value) => PutOrdered(c, key, value, ev.now);
    case CleanupOp => CleanedOrdered(c, ev.now);
    case _ =>
  }

  /** In every reachable state, use times never increase from the front to the back. */
  lemma {:induction false} RunOrdered(capacity: int, ttl: int, start: int, evs: seq<Event>)
    requires ClockRuns(start, evs)
    ensures Ordered(Run(New(capacity, ttl, start), evs).entries, if evs == [] then start else evs[|evs| - 1].now)
  {
    if evs != [] {
      var init := evs[..|evs| - 1];
      RunOrdered(capacity, ttl, start, init);
      StepOrdered(Run(New(capacity, ttl, start), init), evs[|evs| - 1], if init == [] then start else init[|init| - 1].now);
    }
  }

  // ---------- Eviction and expiry ----------

  /** Expired entries form a stretch at the back of the list. */
  lemma ExpiredSuffix(c: Lru, now: int, i: int, j: int)
    requires Ordered(c.entries, now) && 0 <= i <= j < |c.entries| && Idle(c, c.entries[i], now)
    ensures Idle(c, c.entries[j], now)
  {
    assert c.entries[i].lastAccess >= c.entries[j].lastAccess;
  }

  lemma WithoutMember(s: seq<Entry>, i: int, x: Entry)
    requires UniqueKeys(s) && 0 <= i < |s| && x in Without(s, i)
    ensures x in s && x.key != s[i].key
  {
    var w := Without(s, i);
    var a :| 0 <= a < |w| && w[a] == x;
    assert w[a] == s[if a < i then a else a + 1];
  }

  /** A touched list holds the touched entry and the other entries as they were. */
  lemma TouchedMember(s: seq<Entry>, i: int, value: RouteMatch, now: int, x: Entry)
    requires UniqueKeys(s) && 0 <= i < |s| && x in Touched(s, i, value, now)
    ensures (x.key == s[i].key && x.value == value && x.lastAccess == now) || (x in s && x.key != s[i].key)
  {
    if x in Without(s, i) {
      WithoutMember(s, i, x);
    }
  }

  lemma EvictedMember(c: Lru, x: Entry)
    requires UniqueKeys(c.entries) && x in Evicted(c)
    ensures x in c.entries
  {
    if Evicted(c) != c.entries {
      WithoutMember(c.entries, |c.entries| - 1, x);
    }
  }

  /** What a put leaves in the cache: the entry just written, and older entries under other keys. */
  lemma PutMembers(c: Lru, key: string, value: RouteMatch, now: int, x: Entry)
    requires Ordered(c.entries, now) && x in Put(c, key, value, now).entries
    ensures (x.key == key && x.value == value && x.lastAccess == now) || (x in c.entries && x.key != key)
  {
    CleanedOrdered(c, now);
    CleanedMembers(c, now, x);
    var d := CleanedIfNeeded(c, now);
    var i := IndexOf(d.entries, key);
    if i >= 0 {
      TouchedMember(d.entries, i, value, now, x);
    } else if x in Evicted(d) {
      EvictedMember(d, x);
    }
  }

  /** What a lookup leaves: other entries as they were, and under its key the entry that was hit, used now. */
  lemma GotMembers(c: Lru, key: string, now: int, x: Entry)
    requires Ordered(c.entries, now) && x in Got(c, key, now).0.entries
    ensures exists e :: e in c.entries && e.key == x.key && e.value == x.value
    ensures x.key != key ==> x in c.entries
    ensures x.key == key && Got(c, key, now).1.Some? ==> x.lastAccess == now
    ensures x.key == key && Got(c, key, now).1.None? ==> x in c.entries
  {
    CleanedOrdered(c, now);
    var d := CleanedIfNeeded(c, now);
    var i := IndexOf(d.entries, key);
    var e := x;
    if i >= 0 {
      assert d.entries[i] in d.entries;
      if d.Expired(d.entries[i], now) {
        if x !in d.entries {
          WithoutMember(d.entries, i, x);
        }
      } else {
        TouchedMember(d.entries, i, d.entries[i].value, now, x);
        e := if x.key == key then d.entries[i] else x;
      }
    }
    assert e in d.entries;
    CleanedMembers(c, now, e);
    assert e in c.entries && e.key == x.key && e.value == x.value;
  }

  lemma WithoutKeeps(s: seq<Entry>, i: int, k: int)
    requires 0 <= i < |s| && 0 <= k < |s| && k != i
    ensures s[k] in Without(s, i)
  {
    var w := Without(s, i);
    assert w[if k < i then k else k - 1] == s[k];
  }

  /** Making room removes at most the last entry. */
  lemma EvictedKeeps(c: Lru, k: int)
    requires 0 <= k < |c.entries| && (k < |c.entries| - 1 || |c.entries| < c.capacity)
    ensures c.entries[k] in Evicted(c)
  {
    var w := Evicted(c);
    assert w[k] == c.entries[k];
  }

  /** An entry that a put pushes out of a full cache has the oldest access time. */
  lemma EvictsOldest(c: Lru, key: string, value: RouteMatch, now: int, e: Entry)
    requires Ordered(c.entries, now)
    requires e in CleanedIfNeeded(c, now).entries && e.key != key && e !in Put(c, key, value, now).entries
    ensures var s := CleanedIfNeeded(c, now).entries;
      IndexOf(s, key) == -1 && |s| >= c.capacity && forall x :: x in s ==> x.lastAccess >= e.lastAccess
  {
    CleanedOrdered(c, now);
    var d := CleanedIfNeeded(c, now);
    var s := d.entries;
    var k :| 0 <= k < |s| && s[k] == e;
    var i := IndexOf(s, key);
    if i >= 0 {
      WithoutKeeps(s, i, k);
      assert false;
    } else if k < |s| - 1 || |s| < c.capacity {
      EvictedKeeps(d, k);
      assert false;
    }
    assert k == |s| - 1;
  }

  /** A hit is the value stored under the key, by an entry no longer idle than the time to live. */
  lemma HitIsFresh(c: Lru, key: string, now: int)
    requires Ordered(c.entries, now) && Got(c, key, now).1.Some?
    ensures exists e :: e in c.entries && e.key == key && Some(e.value) == Got(c, key, now).1 && !Idle(c, e, now)
  {
    var d := CleanedIfNeeded(c, now);
    var e := d.entries[IndexOf(d.entries, key)];
    CleanedMembers(c, now, e);
    assert e in c.entries && !Idle(c, e, now);
  }

  /** A live entry is always found. */
  lemma LiveIsHit(c: Lru, key: string, now: int, e: Entry)
    requires Ordered(c.entries, now) && e in c.entries && e.key == key && !Idle(c, e, now)
    ensures Got(c, key, now).1 == Some(e.value)
  {
    var d := CleanedIfNeeded(c, now);
    CleanedMembers(c, now, e);
    CleanedOrdered(c, now);
    var k :| 0 <= k < |d.entries| && d.entries[k] == e;
    assert IndexOf(d.entries, key) == k;
  }

  // ---------- Size ----------

  lemma {:induction false} LiveSize(c: Lru, s: seq<Entry>, now: int)
    ensures |Live(c, s, now)| <= |s|
  {
    if s != [] {
      LiveSize(c, s[..|s| - 1], now);
    }
  }

  lemma GotSize(c: Lru, key: string, now: int)
    ensures |Got(c, key, now).0.entries| <= |c.entries|
  {
    LiveSize(c, c.entries, now);
  }

  lemma TouchedSize(s: seq<Entry>, i: int, value: RouteMatch, now: int)
    requires 0 <= i < |s|
    ensures |Touched(s, i, value, now)| == |s|
  {
  }

  /** Whether a full cache can give up its last entry. */
  predicate CanEvict(c: Lru) {
    c.entries != [] && c.entries[|c.entries| - 1].key != ""
  }

  lemma EvictedSize(c: Lru)
    ensures |Evicted(c)| == |c.entries| - if |c.entries| >= c.capacity && CanEvict(c) then 1 else 0
  {
  }

  lemma PutSize(c: Lru, key: string, value: RouteMatch, now: int)
    ensures var d := CleanedIfNeeded(c, now);
      |Put(c, key, value, now).entries| == |d.entries| +
        if IndexOf(d.entries, key) >= 0 || (|d.entries| >= c.capacity && CanEvict(d)) then 0 else 1
  {
    var d := CleanedIfNeeded(c, now);
    var i := IndexOf(d.entries, key);
    if i >= 0 {
      TouchedSize(d.entries, i, value, now);
    } else {
      EvictedSize(d);
    }
  }

  lemma PutWithinCapacity(c: Lru, key: string, value: RouteMatch, now: int)
    requires c.capacity >= 1 && |c.entries| <= c.capacity
    requires forall e :: e in c.entries ==> e.key != ""
    ensures |Put(c, key, value, now).entries| <= c.capacity
  {
    var d := CleanedIfNeeded(c, now);
    assert |d.entries| <= |c.entries| by {
      LiveSize(c, c.entries, now);
    }
    if |d.entries| == c.capacity {
      CleanedMembers(c, now, d.entries[|d.entries| - 1]);
      assert CanEvict(d);
    }
    PutSize(c, key, value, now);
  }

  lemma StepWithinCapacity(c: Lru, ev: Event)
    requires c.capacity >= 1 && |c.entries| <= c.capacity
    requires forall e :: e in c.entries ==> e.key != ""
    ensures |Step(c, ev).entries| <= c.capacity
  {
    match ev.op
    case GetOp(key) => GotSize(c, key, ev.now);
    case PutOp(key, value) => PutWithinCapacity(c, key, value, ev.now);
    case CleanupOp => LiveSize(c, c.entries, ev.now);
    case _ =>
  }

  lemma StepKeepsKeys(c: Lru, ev: Event, e: Entry)
    requires Ordered(c.entries, ev.now) && e in Step(c, ev).entries
    ensures (exists x :: x in c.entries && x.key == e.key) || (ev.op.PutOp? && ev.op.key == e.key)
  {
    match ev.op
    case GetOp(key) => GotMembers(c, key, ev.now, e);
    case PutOp(key, value) => PutMembers(c, key, value, ev.now, e);
    case CleanupOp => CleanedMembers(c, ev.now, e);
    case _ =>
  }

  /** As long as nothing is stored under the empty key, the cache never outgrows its capacity. */
  lemma {:induction false} RunWithinCapacity(capacity: int, ttl: int, start: int, evs: seq<Event>)
    requires ClockRuns(start, evs) && capacity >= 1
    requires forall i :: 0 <= i < |evs| && evs[i].op.PutOp? ==> evs[i].op.key != ""
    ensures var c := Run(New(capacity, ttl, start), evs);
      c.capacity == capacity && |c.entries| <= capacity && forall e :: e in c.entries ==> e.key != ""
  {
    if evs != [] {
      var init, ev := evs[..|evs| - 1], evs[|evs| - 1];
      RunWithinCapacity(capacity, ttl, start, init);
      RunOrdered(capacity, ttl, start, init);
      var c := Run(New(capacity, ttl, start), init);
      StepWithinCapacity(c, ev);
      forall e | e in Step(c, ev).entries ensures e.key != "" {
        StepKeepsKeys(c, ev, e);
      }
    }
  }

  /** A put outgrows the capacity exactly when a full cache has nothing it can give up. */
  lemma PutOutgrows(c: Lru, key: string, value: RouteMatch, now: int)
    requires |c.entries| <= c.capacity
    ensures var d := CleanedIfNeeded(c, now);
      |Put(c, key, value, now).entries| > c.capacity <==>
      IndexOf(d.entries, key) == -1 && |d.entries| == c.capacity && !CanEvict(d)
  {
    PutSize(c, key, value, now);
    LiveSize(c, c.entries, now);
  }

  /** Such a state is reachable: one entry under the empty key in a cache of capacity one. */
  lemma EmptyKeyOutgrows(v: RouteMatch)
    ensures |Put(Put(New(1, 3600, 0), "", v, 0), "a", v, 0).entries| == 2
  {
    var c := Put(New(1, 3600, 0), "", v, 0);
    assert c.entries == [Entry("", v, 0, 0)];
    assert IndexOf(c.entries, "a") == -1;
    PutOutgrows(c, "a", v, 0);
  }

  // ---------- What a hit means over a run ----------

  /** The value most recently put under `key` since the last clear, if any. */
  function LastPut(evs: seq<Event>, key: string): Option<RouteMatch> {
    if evs == [] || evs[|evs| - 1].op.ClearOp? then None
    else
      var op := evs[|evs| - 1].op;
      if op.PutOp? && op.key == key then Some(op.value) else LastPut(evs[..|evs| - 1], key)
  }

  ghost predicate Current(s: seq<Entry>, evs: seq<Event>) {
    forall e :: e in s ==> LastPut(evs, e.key) == Some(e.value)
  }

  lemma {:induction false} RunCurrent(capacity: int, ttl: int, start: int, evs: seq<Event>)
    requires ClockRuns(start, evs)
    ensures Current(Run(New(capacity, ttl, start), evs).entries, evs)
  {
    if evs != [] {
      var init, ev := evs[..|evs| - 1], evs[|evs| - 1];
      var c := Run(New(capacity, ttl, start), init);
      RunCurrent(capacity, ttl, start, init);
      RunOrdered(capacity, ttl, start, init);
      forall x | x in Step(c, ev).entries ensures LastPut(evs, x.key) == Some(x.value) {
        match ev.op
        case GetOp(key) => GotMembers(c, key, ev.now, x);
        case PutOp(key, value) => PutMembers(c, key, value, ev.now, x);
        case CleanupOp => CleanedMembers(c, ev.now, x);
        case _ =>
      }
    }
  }

  /** A hit anywhere in a run returns the value most recently put under that key since the last clear. */
  lemma HitIsLastPut(capacity: int, ttl: int, start: int, evs: seq<Event>, key: string, now: int)
    requires ClockRuns(start, evs + [Event(GetOp(key), now)])
    ensures var hit := Got(Run(New(capacity, ttl, start), evs), key, now).1;
      hit.Some? ==> hit == LastPut(evs, key)
  {
    var all := evs + [Event(GetOp(key), now)];
    assert forall i :: 0 <= i < |evs| ==> evs[i] == all[i];
    var c := Run(New(capacity, ttl, start), evs);
    RunCurrent(capacity, ttl, start, evs);
    RunOrdered(capacity, ttl, start, evs);
    if Got(c, key, now).1.Some? {
      assert all[|evs|].now == now;
      HitIsFresh(c, key, now);
    }
  }

  // ---------- When an entry was last used ----------

  /** The time of the last put of `key` since the last clear, or of the last get of it that was a hit. */
  ghost function LastUse(c: Lru, evs: seq<Event>, key: string): Option<int> {
    if evs == [] || evs[|evs| - 1].op.ClearOp? then None
    else
      var init, ev := evs[..|evs| - 1], evs[|evs| - 1];
      if ev.op.PutOp? && ev.op.key == key then Some(ev.now)
      else if ev.op.GetOp? && ev.op.key == key && Got(Run(c, init), key, ev.now).1.Some? then Some(ev.now)
      else LastUse(c, init, key)
  }

  /** Over every run the access time of a stored entry is the time of the last use of its key. */
  lemma {:induction false} RunUses(capacity: int, ttl: int, start: int, evs: seq<Event>)
    requires ClockRuns(start, evs)
    ensures var c := New(capacity, ttl, start);
      forall e :: e in Run(c, evs).entries ==> LastUse(c, evs, e.key) == Some(e.lastAccess)
  {
    if evs != [] {
      var init, ev := evs[..|evs| - 1], evs[|evs| - 1];
      var c0 := New(capacity, ttl, start);
      var c := Run(c0, init);
      RunUses(capacity, ttl, start, init);
      RunOrdered(capacity, ttl, start, init);
      assert Ordered(c.entries, ev.now);
      hide Got, Put, Cleaned;
      forall x | x in Step(c, ev).entries ensures LastUse(c0, evs, x.key) == Some(x.lastAccess) {
        match ev.op
        case GetOp(key) => GotMembers(c, key, ev.now, x);
        case PutOp(key, value) => PutMembers(c, key, value, ev.now, x);
        case CleanupOp => CleanedMembers(c, ev.now, x);
        case _ =>
      }
    }
  }

  /**
   Least recently used: if a put at the end of a run drops an entry that is not idle, its key is new, the
   cache was full, and every entry that stays was used no earlier than the dropped one.
   */
  lemma EvictsLeastRecent(capacity: int, ttl: int, start: int, evs: seq<Event>, key: string, value: RouteMatch, now: int, e: Entry)
    requires ClockRuns(start, evs + [Event(PutOp(key, value), now)])
    requires var c := Run(New(capacity, ttl, start), evs);
      e in c.entries && !Idle(c, e, now) && e.key != key && e !in Put(c, key, value, now).entries
    ensures var c0 := New(capacity, ttl, start);
      var c := Run(c0, evs);
      && |c.entries| >= c.capacity
      && (forall x :: x in c.entries && !Idle(c, x, now) ==> x.key != key)
      && LastUse(c0, evs, e.key).Some?
      && forall x :: x in Put(c, key, value, now).entries && x.key != key ==>
           LastUse(c0, evs, x.key).Some? && LastUse(c0, evs, x.key).value >= LastUse(c0, evs, e.key).value
  {
    var c0, all := New(capacity, ttl, start), evs + [Event(PutOp(key, value), now)];
    var c := Run(c0, evs);
    assert all[|evs|].now == now && forall i :: 0 <= i < |evs| ==> all[i] == evs[i];
    RunOrdered(capacity, ttl, start, evs);
    RunUses(capacity, ttl, start, evs);
    assert Ordered(c.entries, now);
    CleanedMembers(c, now, e);
    EvictsOldest(c, key, value, now, e);
    CleanedOrdered(c, now);
    var d := CleanedIfNeeded(c, now);
    forall x | x in c.entries && !Idle(c, x, now) ensures x.key != key {
      CleanedMembers(c, now, x);
    }
    forall x | x in Put(c, key, value, now).entries && x.key != key
      ensures x in c.entries && x.lastAccess >= e.lastAccess
    {
      PutMembers(c, key, value, now, x);
      PutOthers(c, key, value, now, x);
    }
  }

  /** The other entries that a put leaves have survived the cleanup before it. */
  lemma PutOthers(c: Lru, key: string, value: RouteMatch, now: int, x: Entry)
    requires Ordered(c.entries, now) && x in Put(c, key, value, now).entries && x.key != key
    ensures x in CleanedIfNeeded(c, now).entries
  {
    CleanedOrdered(c, now);
    var d := CleanedIfNeeded(c, now);
    var i := IndexOf(d.entries, key);
    if i >= 0 {
      TouchedMember(d.entries, i, value, now, x);
    } else if x in Evicted(d) {
      EvictedMember(d, x);
    }
  }

  /** A hit moves its entry to the front, used now and otherwise as it was; the others keep their order. */
  lemma HitStandsFirst(c: Lru, key: string, now: int)
    requires Ordered(c.entries, now) && Got(c, key, now).1.Some?
    ensures var s, s' := CleanedIfNeeded(c, now).entries, Got(c, key, now).0.entries;
      && s' != [] && s'[0].key == key && s'[0].lastAccess == now && Got(c, key, now).1 == Some(s'[0].value)
      && (exists e :: e in s && e.(lastAccess := now) == s'[0])
      && s'[1..] == Dropped(s, {key})
  {
    CleanedOrdered(c, now);
    var s := CleanedIfNeeded(c, now).entries;
    var i := IndexOf(s, key);
    assert s[i] in s && s[i].(lastAccess := now) == Got(c, key, now).0.entries[0];
    DroppedNothing(s);
    DroppedOneMore(s, {}, i);
    assert {} + {key} == {key};
  }

  lemma LookedMiss(d: Lru, key: string, now: int)
    requires UniqueKeys(d.entries) && Looked(d, key, now).1.None?
    ensures Looked(d, key, now).0.entries == if key == "" then d.entries else Dropped(d.entries, {key})
  {
    var i := IndexOf(d.entries, key);
    hide UniqueKeys, IndexOf;
    DroppedNothing(d.entries);
    assert {} + {key} == {key};
    if i >= 0 {
      DroppedOneMore(d.entries, {}, i);
    } else {
      DroppedAbsent(d.entries, {}, key);
    }
  }

  /** A miss takes out the idle entry it met, if any, and nothing else but what the cleanup before it takes. */
  lemma MissDropsIdle(c: Lru, key: string, now: int)
    requires Ordered(c.entries, now) && Got(c, key, now).1.None?
    ensures var s, s' := CleanedIfNeeded(c, now).entries, Got(c, key, now).0.entries;
      && s' == (if key == "" then s else Dropped(s, {key}))
      && forall e :: e in s && e.key == key ==> Idle(c, e, now)
  {
    CleanedOrdered(c, now);
    LookedMiss(CleanedIfNeeded(c, now), key, now);
    hide Dropped;
  }

  /** A put of a stored key moves its entry to the front with the new value; the others keep their order. */
  lemma PutAgainStandsFirst(c: Lru, key: string, value: RouteMatch, now: int, e: Entry)
    requires Ordered(c.entries, now) && e in CleanedIfNeeded(c, now).entries && e.key == key
    ensures var s, s' := CleanedIfNeeded(c, now).entries, Put(c, key, value, now).entries;
      s' != [] && s'[0] == Entry(key, value, e.createdAt, now) && s'[1..] == Dropped(s, {key})
  {
    CleanedOrdered(c, now);
    var s := CleanedIfNeeded(c, now).entries;
    var i :| 0 <= i < |s| && s[i] == e;
    assert IndexOf(s, key) == i;
    DroppedNothing(s);
    DroppedOneMore(s, {}, i);
    assert {} + {key} == {key};
  }

  /** A new key comes to the front; the others stay as they are, but for the last one of a full cache. */
  lemma PutNewStandsFirst(c: Lru, key: string, value: RouteMatch, now: int)
    requires forall e :: e in CleanedIfNeeded(c, now).entries ==> e.key != key
    ensures var s, s' := CleanedIfNeeded(c, now).entries, Put(c, key, value, now).entries;
      && s' != [] && s'[0] == Entry(key, value, now, now)
      && s'[1..] == if s != [] && |s| >= c.capacity && s[|s| - 1].key != "" then s[..|s| - 1] else s
  {
    var s := CleanedIfNeeded(c, now).entries;
    var i := IndexOf(s, key);
    assert forall j :: 0 <= j < |s| ==> s[j] in s;
    hide CleanedIfNeeded;
    if s != [] {
      assert Without(s, |s| - 1) == s[..|s| - 1];
    }
  }

  // ---------- Removing a collected set of keys ----------

  /** The entries of `s` whose key is not in `keys`. */
  function Dropped(s: seq<Entry>, keys: set<string>): seq<Entry> {
    if s == [] then []
    else Dropped(s[..|s| - 1], keys) + if s[|s| - 1].key in keys then [] else [s[|s| - 1]]
  }

  lemma {:induction false} DroppedMembers(s: seq<Entry>, keys: set<string>, e: Entry)
    ensures e in Dropped(s, keys) <==> e in s && e.key !in keys
  {
    if s != [] {
      assert s == s[..|s| - 1] + [s[|s| - 1]];
      DroppedMembers(s[..|s| - 1], keys, e);
    }
  }

  lemma {:induction false} DroppedAbsent(s: seq<Entry>, keys: set<string>, k: string)
    requires forall e :: e in s ==> e.key != k
    ensures Dropped(s, keys + {k}) == Dropped(s, keys)
  {
    if s != [] {
      assert s[|s| - 1] in s;
      DroppedAbsent(s[..|s| - 1], keys, k);
    }
  }

  lemma DroppedGone(s: seq<Entry>, keys: set<string>, k: string)
    requires forall e :: e in Dropped(s, keys) ==> e.key != k
    ensures Dropped(s, keys) == Dropped(s, if k == "" then keys else keys + {k})
  {
    if k !in keys {
      forall e | e in s ensures e.key != k {
        DroppedMembers(s, keys, e);
      }
      DroppedAbsent(s, keys, k);
    } else {
      assert keys + {k} == keys;
    }
  }

  /** Taking out the entry with key `k` is dropping one key more. */
  lemma {:induction false} DroppedOneMore(s: seq<Entry>, keys: set<string>, i: int)
    requires UniqueKeys(s) && 0 <= i < |Dropped(s, keys)|
    ensures Without(Dropped(s, keys), i) == Dropped(s, keys + {Dropped(s, keys)[i].key})
  {
    var init, last, t := s[..|s| - 1], s[|s| - 1], Dropped(s, keys);
    var k := t[i].key;
    if i < |Dropped(init, keys)| {
      DroppedOneMore(init, keys, i);
      DroppedMembers(init, keys, Dropped(init, keys)[i]);
      assert last.key != k;
    } else {
      forall e | e in init ensures e.key != k {
        var a :| 0 <= a < |init| && init[a] == e;
        assert s[a] == e;
      }
      DroppedAbsent(init, keys, k);
    }
  }

  /** Dropping the keys of all expired entries is what a cleanup does. */
  lemma {:induction false} DroppedIsLive(c: Lru, s: seq<Entry>, now: int, keys: set<string>)
    requires forall e :: e in s ==> (e.key in keys <==> c.Expired(e, now) && e.key != "")
    ensures Dropped(s, keys) == Live(c, s, now)
  {
    if s != [] {
      assert s[|s| - 1] in s;
      DroppedIsLive(c, s[..|s| - 1], now, keys);
    }
  }

  lemma {:induction false} DroppedNothing(s: seq<Entry>)
    ensures Dropped(s, {}) == s
  {
    if s != [] {
      DroppedNothing(s[..|s| - 1]);
    }
  }

  lemma IndexOfUnique(s: seq<Entry>, k: int)
    requires UniqueKeys(s) && 0 <= k < |s|
    ensures IndexOf(s, s[k].key) == k
  {
  }
}
