/**
 The fixed-window rate limiter: a store of counters, one per client key, each with the moment
 at which its window ends. All times are milliseconds read from a clock.
 */
module RateLimit {
  datatype Entry = Entry(count: int, resetAt: int)

  type Data = map<string, Entry>

  /** The entry of a key after one more request at `now`. */
  function NextEntry(d: Data, key: string, window: int, now: int): Entry {
    if key in d && now < d[key].resetAt then d[key].(count := d[key].count + 1)
    else Entry(1, now + window)
  }

  /** The store without the entries whose window has ended. */
  function Unexpired(d: Data, now: int): Data {
    map key | key in d && now < d[key].resetAt :: d[key]
  }

  /** The store; its mutex makes each method one step. */
  class MemoryStore {
    var data: Data

    constructor ()
      ensures data == map[]
    {
      data := map[];
    }

    method Increment(key: string, window: int, now: int) returns (count: int, resetAt: int)
      modifies this
      ensures data == old(data)[key := NextEntry(old(data), key, window, now)]
      ensures Entry(count, resetAt) == NextEntry(old(data), key, window, now)
      ensures if key in old(data) && now < old(data)[key].resetAt
        then count == old(data)[key].count + 1 && resetAt == old(data)[key].resetAt
        else count == 1 && resetAt == now + window
    {
      if key in data {
        var entry := data[key];
        if now >= entry.resetAt {
          entry := entry.(count := 1, resetAt := now + window);
        } else {
          entry := entry.(count := entry.count + 1);
        }
        data := data[key := entry];
        return entry.count, entry.resetAt;
      }
      var entry := Entry(1, now + window);
      data := data[key := entry];
      return entry.count, entry.resetAt;
    }

    method Reset(key: string)
      modifies this
      ensures data == old(data) - {key}
    {
      data := data - {key};
    }

    method CleanupExpired(now: int)
      modifies this
      ensures data == Unexpired(old(data), now)
      ensures forall key :: key in data <==> key in old(data) && now < old(data)[key].resetAt
      ensures forall key :: key in data ==> data[key] == old(data)[key]
    {
      var doomed: seq<string> := [];
      var todo := data.Keys;
      while todo != {}
        invariant todo <= data.Keys && data == old(data)
        invariant forall key :: key in doomed <==> key in data && key !in todo && now >= data[key].resetAt
        decreases |todo|
      {
        var key :| key in todo;
        todo := todo - {key};
        if now >= data[key].resetAt {
          doomed := doomed + [key];
        }
      }
      for i := 0 to |doomed|
        invariant forall key :: key in data <==> key in old(data) && key !in doomed[..i]
        invariant forall key :: key in data ==> data[key] == old(data)[key]
      {
        assert doomed[..i + 1] == doomed[..i] + [doomed[i]];
        data := data - {doomed[i]};
      }
      assert doomed[..|doomed|] == doomed;
    }

    /** The admission test of the middleware: one increment, compared with the limit. */
    method Admit(key: string, window: int, limit: int, now: int) returns (admitted: bool, remaining: int, resetAt: int)
      modifies this
      ensures data == old(data)[key := NextEntry(old(data), key, window, now)]
      ensures admitted <==> NextEntry(old(data), key, window, now).count <= limit
      ensures remaining == if admitted then limit - data[key].count else 0
      ensures resetAt == data[key].resetAt
    {
      var count;
      count, resetAt := Increment(key, window, now);
      remaining := if count > limit then 0 else limit - count;
      admitted := !(count > limit);
    }
  }

  // ---------- Traces ----------

  datatype Event =
    | Request(key: string, window: int, now: int)
    | Reset(key: string, now: int)
    | Cleanup(now: int)

  function Step(d: Data, ev: Event): Data {
    match ev
    case Request(key, window, now) => d[key := NextEntry(d, key, window, now)]
    case Reset(key, _) => d - {key}
    case Cleanup(now) => Unexpired(d, now)
  }

  function Run(evs: seq<Event>): Data {
    if evs == [] then map[] else Step(Run(evs[..|evs| - 1]), evs[|evs| - 1])
  }

  ghost predicate ClockRuns(evs: seq<Event>) {
    forall i, j :: 0 <= i < j < |evs| ==> evs[i].now <= evs[j].now
  }

  /** The answers to all requests of a trace, in order. */
  function Answers(evs: seq<Event>): seq<Entry> {
    if evs == [] then []
    else
      var init, ev := evs[..|evs| - 1], evs[|evs| - 1];
      Answers(init) + if ev.Request? then [NextEntry(Run(init), ev.key, ev.window, ev.now)] else []
  }

  function WithoutCleanups(evs: seq<Event>): seq<Event> {
    if evs == [] then []
    else
      var init, ev := evs[..|evs| - 1], evs[|evs| - 1];
      WithoutCleanups(init) + if ev.Cleanup? then [] else [ev]
  }

  /** After a reset the next request of the key counts as the first of a new window. */
  lemma ResetStartsOver(evs: seq<Event>, key: string, window: int, at: int, now: int)
    ensures var all := evs + [Reset(key, at), Request(key, window, now)];
      Answers(all) == Answers(evs) + [Entry(1, now + window)]
  {
    var reset := evs + [Reset(key, at)];
    var all := evs + [Reset(key, at), Request(key, window, now)];
    assert all[..|all| - 1] == reset && reset[..|reset| - 1] == evs;
    assert Answers(reset) == Answers(evs);
  }

  /** `d` lacks at most entries of `e` whose window has ended at `now`. */
  ghost predicate Tidied(d: Data, e: Data, now: int) {
    && (forall key :: key in d ==> key in e && d[key] == e[key])
    && (forall key :: key in e && key !in d ==> e[key].resetAt <= now)
  }

  lemma TidiedStep(d: Data, e: Data, ev: Event, before: int)
    requires Tidied(d, e, before) && before <= ev.now
    ensures Tidied(Step(d, ev), if ev.Cleanup? then e else Step(e, ev), ev.now)
    ensures ev.Request? ==> NextEntry(d, ev.key, ev.window, ev.now) == NextEntry(e, ev.key, ev.window, ev.now)
  {
  }

  /** Appending one event to a trace, with or without the cleanups before it. */
  lemma WithoutCleanupsLast(evs: seq<Event>)
    requires evs != []
    ensures var init, ev, w := evs[..|evs| - 1], evs[|evs| - 1], WithoutCleanups(evs);
      if ev.Cleanup? then w == WithoutCleanups(init)
      else w != [] && w[..|w| - 1] == WithoutCleanups(init) && w[|w| - 1] == ev
  {
  }

  lemma {:induction false} CleanupsLeaveTidied(evs: seq<Event>)
    requires ClockRuns(evs) && evs != []
    ensures Tidied(Run(evs), Run(WithoutCleanups(evs)), evs[|evs| - 1].now)
  {
    var init, ev := evs[..|evs| - 1], evs[|evs| - 1];
    if init != [] {
      CleanupsLeaveTidied(init);
    }
    TidiedStep(Run(init), Run(WithoutCleanups(init)), ev, if init == [] then ev.now else init[|init| - 1].now);
    WithoutCleanupsLast(evs);
  }

  /** Cleanups, wherever they occur, change no answer. */
  lemma {:induction false} CleanupsAreInvisible(evs: seq<Event>)
    requires ClockRuns(evs)
    ensures Answers(evs) == Answers(WithoutCleanups(evs))
  {
    if evs != [] {
      var init, ev := evs[..|evs| - 1], evs[|evs| - 1];
      CleanupsAreInvisible(init);
      WithoutCleanupsLast(evs);
      if init != [] {
        CleanupsLeaveTidied(init);
      }
      TidiedStep(Run(init), Run(WithoutCleanups(init)), ev, if init == [] then ev.now else init[|init| - 1].now);
    }
  }

  // ---------- How many requests get through ----------

  /** A request that passed: when, and in the window ending when. */
  datatype Pass = Pass(now: int, resetAt: int)

  /** The requests of `key` that pass the limit. */
  function Passes(evs: seq<Event>, key: string, limit: int): seq<Pass> {
    if evs == [] then []
    else
      var init, ev := evs[..|evs| - 1], evs[|evs| - 1];
      Passes(init, key, limit) +
      if ev.Request? && ev.key == key && NextEntry(Run(init), key, ev.window, ev.now).count <= limit
      then [Pass(ev.now, NextEntry(Run(init), key, ev.window, ev.now).resetAt)] else []
  }

  /** How many passes fall into the `len` milliseconds from `from` on. */
  function InInterval(ps: seq<Pass>, from: int, len: int): nat {
    if ps == [] then 0
    else InInterval(ps[..|ps| - 1], from, len) + if from <= ps[|ps| - 1].now < from + len then 1 else 0
  }

  /** How many passes belong to the window that ends at `resetAt`. */
  function InWindow(ps: seq<Pass>, resetAt: int): nat {
    if ps == [] then 0
    else InWindow(ps[..|ps| - 1], resetAt) + if ps[|ps| - 1].resetAt == resetAt then 1 else 0
  }

  lemma {:induction false} CountsAdd(a: seq<Pass>, b: seq<Pass>, from: int, len: int, resetAt: int)
    ensures InInterval(a + b, from, len) == InInterval(a, from, len) + InInterval(b, from, len)
    ensures InWindow(a + b, resetAt) == InWindow(a, resetAt) + InWindow(b, resetAt)
    decreases |b|
  {
    if b == [] {
      assert a + b == a;
    } else {
      assert (a + b)[..|a + b| - 1] == a + b[..|b| - 1];
      CountsAdd(a, b[..|b| - 1], from, len, resetAt);
    }
  }

  lemma {:induction false} CountsAtMost(a: seq<Pass>, from: int, len: int, resetAt: int)
    ensures InInterval(a, from, len) <= |a| && InWindow(a, resetAt) <= |a|
    ensures (forall p :: p in a ==> !(from <= p.now < from + len)) ==> InInterval(a, from, len) == 0
    ensures (forall p :: p in a ==> p.resetAt != resetAt) ==> InWindow(a, resetAt) == 0
  {
    if a != [] {
      CountsAtMost(a[..|a| - 1], from, len, resetAt);
      assert a[|a| - 1] in a;
    }
  }

  /** A stretch that starts after the first pass misses it. */
  lemma {:induction false} CountsMissFirst(a: seq<Pass>, from: int, len: int)
    requires a != [] && a[0].now < from
    ensures InInterval(a, from, len) <= |a| - 1
  {
    if |a| > 1 {
      CountsMissFirst(a[..|a| - 1], from, len);
    } else {
      assert a[..0] == [];
    }
  }

  /** The bound in force within one window: a negative limit admits nothing. */
  function Cap(limit: int): nat {
    if limit < 0 then 0 else limit
  }

  /** The bound within any stretch of one window's length, which can meet two windows. */
  function Peak(limit: int): nat {
    if limit < 1 then 0 else 2 * limit - 1
  }

  /** The exact bound: a stretch of a single millisecond meets only one window. */
  function Bound(window: int, limit: int): nat {
    if window == 1 then Cap(limit) else Peak(limit)
  }

  /**
   What is known of the passes of one key: those of earlier windows, and those of the latest
   window, which starts at `start` and has counted `count` requests.
   */
  datatype Log = Log(earlier: seq<Pass>, latest: seq<Pass>, start: int, count: int)

  ghost predicate LogShape(log: Log, window: int, limit: int) {
    && (forall p :: p in log.earlier ==> p.now < log.start && p.resetAt <= log.start)
    && (forall p :: p in log.latest ==> log.start <= p.now < log.start + window && p.resetAt == log.start + window)
    && log.count >= 1 && |log.latest| == (if log.count < Cap(limit) then log.count else Cap(limit))
    && (log.latest != [] ==> log.latest[0].now == log.start)
  }

  ghost predicate LogCounts(log: Log, window: int, limit: int) {
    && (forall from, len :: log.start - window < from ==>
          InInterval(log.earlier, from, len) <= if limit < 1 then 0 else limit - 1)
    && (forall from :: InInterval(log.earlier, from, window) <= Peak(limit))
    && (forall resetAt :: InWindow(log.earlier, resetAt) <= Cap(limit))
  }

  /** Every stretch of one window's length meets at most two windows, and misses the start of the first. */
  lemma TotalCounts(log: Log, window: int, limit: int, from: int, resetAt: int)
    requires LogShape(log, window, limit) && LogCounts(log, window, limit) && window >= 1
    ensures InInterval(log.earlier + log.latest, from, window) <= Peak(limit)
    ensures InWindow(log.earlier + log.latest, resetAt) <= Cap(limit)
  {
    CountsAdd(log.earlier, log.latest, from, window, resetAt);
    CountsAtMost(log.latest, from, window, resetAt);
    CountsAtMost(log.earlier, from, window, resetAt);
  }

  /** The next request of the key: in the latest window, or the first of a new one. */
  function Logged(log: Log, window: int, limit: int, now: int): Log {
    if now < log.start + window then
      log.(count := log.count + 1,
           latest := log.latest + if log.count + 1 <= limit then [Pass(now, log.start + window)] else [])
    else Log(log.earlier + log.latest, if 1 <= limit then [Pass(now, now + window)] else [], now, 1)
  }

  lemma LoggedShape(log: Log, window: int, limit: int, now: int)
    requires LogShape(log, window, limit) && log.start <= now && window >= 1
    ensures LogShape(Logged(log, window, limit, now), window, limit)
  {
  }

  lemma LoggedCounts(log: Log, window: int, limit: int, now: int)
    requires LogShape(log, window, limit) && LogCounts(log, window, limit) && log.start <= now && window >= 1
    ensures LogCounts(Logged(log, window, limit, now), window, limit)
  {
    if log.start + window <= now {
      var all := log.earlier + log.latest;
      forall from, len | now - window < from
        ensures InInterval(all, from, len) <= if limit < 1 then 0 else limit - 1
      {
        CountsAdd(log.earlier, log.latest, from, len, 0);
        CountsAtMost(log.latest, from, len, 0);
        CountsAtMost(log.earlier, from, len, 0);
        if log.latest != [] {
          CountsMissFirst(log.latest, from, len);
        }
      }
      forall from ensures InInterval(all, from, window) <= Peak(limit) {
        TotalCounts(log, window, limit, from, 0);
      }
      forall resetAt ensures InWindow(all, resetAt) <= Cap(limit) {
        TotalCounts(log, window, limit, 0, resetAt);
      }
    }
  }

  /** The trace has one window length for all requests of `key` and never resets it. */
  ghost predicate Steady(evs: seq<Event>, key: string, window: int) {
    && ClockRuns(evs)
    && forall i :: 0 <= i < |evs| ==>
         && (evs[i].Request? && evs[i].key == key ==> evs[i].window == window)
         && !(evs[i].Reset? && evs[i].key == key)
  }

  /** The passes of the trace are the passes of the log, and the stored entry is that of the log or gone. */
  ghost predicate Agrees(evs: seq<Event>, key: string, window: int, limit: int, log: Log) {
    && evs != [] && Passes(evs, key, limit) == log.earlier + log.latest && log.start <= evs[|evs| - 1].now
    && (key in Run(evs) ==> Run(evs)[key] == Entry(log.count, log.start + window))
    && (key !in Run(evs) ==> log.start + window <= evs[|evs| - 1].now)
  }

  lemma AgreesStep(evs: seq<Event>, key: string, window: int, limit: int, log: Log)
    requires evs != [] && Steady(evs, key, window) && window >= 1
    requires Agrees(evs[..|evs| - 1], key, window, limit, log) && LogShape(log, window, limit)
    ensures var ev := evs[|evs| - 1];
      Agrees(evs, key, window, limit, if ev.Request? && ev.key == key then Logged(log, window, limit, ev.now) else log)
  {
    var init, ev := evs[..|evs| - 1], evs[|evs| - 1];
    assert init[|init| - 1].now <= ev.now;
  }

  /** The log of a trace that ends with the first request of `key`. */
  lemma FirstLog(evs: seq<Event>, key: string, window: int, limit: int) returns (log: Log)
    requires Steady(evs, key, window) && window >= 1 && evs != []
    requires var ev := evs[|evs| - 1]; ev.Request? && ev.key == key
    requires forall i :: 0 <= i < |evs| - 1 ==> !(evs[i].Request? && evs[i].key == key)
    ensures Agrees(evs, key, window, limit, log) && LogShape(log, window, limit) && LogCounts(log, window, limit)
  {
    var init, ev := evs[..|evs| - 1], evs[|evs| - 1];
    NoRequestNoEntry(init, key, limit);
    log := Log([], if 1 <= limit then [Pass(ev.now, ev.now + window)] else [], ev.now, 1);
  }

  /** The log of a trace in which `key` has made a request. */
  lemma {:induction false} SomeLog(evs: seq<Event>, key: string, window: int, limit: int) returns (log: Log)
    requires Steady(evs, key, window) && window >= 1
    requires exists i :: 0 <= i < |evs| && evs[i].Request? && evs[i].key == key
    ensures Agrees(evs, key, window, limit, log) && LogShape(log, window, limit) && LogCounts(log, window, limit)
  {
    var init, ev := evs[..|evs| - 1], evs[|evs| - 1];
    if exists i :: 0 <= i < |init| && init[i].Request? && init[i].key == key {
      hide Agrees, LogShape, LogCounts;
      log := SomeLog(init, key, window, limit);
      AgreesStep(evs, key, window, limit, log);
      if ev.Request? && ev.key == key {
        LoggedShape(log, window, limit, ev.now);
        LoggedCounts(log, window, limit, ev.now);
        log := Logged(log, window, limit, ev.now);
      }
    } else {
      assert ev.Request? && ev.key == key;
      log := FirstLog(evs, key, window, limit);
    }
  }

  lemma {:induction false} NoRequestNoEntry(evs: seq<Event>, key: string, limit: int)
    requires forall i :: 0 <= i < |evs| ==> !(evs[i].Request? && evs[i].key == key)
    ensures key !in Run(evs) && Passes(evs, key, limit) == []
  {
    if evs != [] {
      NoRequestNoEntry(evs[..|evs| - 1], key, limit);
    }
  }

  /** With windows of one millisecond every request belongs to the window of its own millisecond. */
  lemma {:induction false} OwnMillisecond(evs: seq<Event>, key: string, limit: int)
    requires Steady(evs, key, 1)
    ensures forall p :: p in Passes(evs, key, limit) ==> p.resetAt == p.now + 1
    ensures key in Run(evs) ==> evs != [] && Run(evs)[key].resetAt <= evs[|evs| - 1].now + 1
  {
    if evs != [] {
      OwnMillisecond(evs[..|evs| - 1], key, limit);
    }
  }

  lemma {:induction false} IntervalIsWindow(ps: seq<Pass>, from: int)
    requires forall p :: p in ps ==> p.resetAt == p.now + 1
    ensures InInterval(ps, from, 1) == InWindow(ps, from + 1)
  {
    if ps != [] {
      IntervalIsWindow(ps[..|ps| - 1], from);
    }
  }

  lemma TraceCounts(evs: seq<Event>, key: string, window: int, limit: int, from: int, resetAt: int)
    requires Steady(evs, key, window) && window >= 1
    ensures InWindow(Passes(evs, key, limit), resetAt) <= Cap(limit)
    ensures InInterval(Passes(evs, key, limit), from, window) <= Peak(limit)
  {
    if exists i :: 0 <= i < |evs| && evs[i].Request? && evs[i].key == key {
      var log := SomeLog(evs, key, window, limit);
      TotalCounts(log, window, limit, from, resetAt);
    } else {
      NoRequestNoEntry(evs, key, limit);
    }
  }

  /**
   Each counter window admits at most `limit` requests of a key, and every stretch of time of
   one window's length admits at most one less than twice the limit.
   */
  lemma AdmissionBound(evs: seq<Event>, key: string, window: int, limit: int, from: int, resetAt: int)
    requires Steady(evs, key, window) && window >= 1
    ensures InWindow(Passes(evs, key, limit), resetAt) <= Cap(limit)
    ensures InInterval(Passes(evs, key, limit), from, window) <= Bound(window, limit)
  {
    TraceCounts(evs, key, window, limit, from, resetAt);
    if window == 1 {
      OwnMillisecond(evs, key, limit);
      IntervalIsWindow(Passes(evs, key, limit), from);
      TraceCounts(evs, key, window, limit, from, from + 1);
    }
  }

  // ---------- The bound is exact ----------

  /** `n` requests at the same moment. */
  function Burst(key: string, window: int, now: int, n: nat): seq<Event> {
    if n == 0 then [] else Burst(key, window, now, n - 1) + [Request(key, window, now)]
  }

  /** A request inside a running window passes as long as the count stays within the limit. */
  lemma RequestPasses(evs: seq<Event>, key: string, window: int, limit: int, now: int, from: int, len: int)
    requires key in Run(evs) && now < Run(evs)[key].resetAt && Run(evs)[key].count + 1 <= limit
    requires from <= now < from + len
    ensures var all := evs + [Request(key, window, now)];
      && key in Run(all) && Run(all)[key] == Run(evs)[key].(count := Run(evs)[key].count + 1)
      && InInterval(Passes(all, key, limit), from, len) == InInterval(Passes(evs, key, limit), from, len) + 1
  {
    var all := evs + [Request(key, window, now)];
    assert all[..|all| - 1] == evs;
    var ps := Passes(all, key, limit);
    assert ps[..|ps| - 1] == Passes(evs, key, limit);
  }

  /** So a burst passes whole. */
  lemma {:induction false} BurstPasses(evs: seq<Event>, key: string, window: int, limit: int, now: int, n: nat, from: int, len: int)
    requires key in Run(evs) && now < Run(evs)[key].resetAt && Run(evs)[key].count + n <= limit
    requires from <= now < from + len
    ensures var all := evs + Burst(key, window, now, n);
      && key in Run(all) && Run(all)[key] == Run(evs)[key].(count := Run(evs)[key].count + n)
      && InInterval(Passes(all, key, limit), from, len) == InInterval(Passes(evs, key, limit), from, len) + n
  {
    hide Run, Passes, InInterval;
    if n == 0 {
      assert evs + Burst(key, window, now, n) == evs;
    } else {
      var init := evs + Burst(key, window, now, n - 1);
      BurstPasses(evs, key, window, limit, now, n - 1, from, len);
      RequestPasses(init, key, window, limit, now, from, len);
      assert evs + Burst(key, window, now, n) == init + [Request(key, window, now)];
    }
  }

  /** A request that finds its window ended opens a new one. */
  lemma OpenerPasses(evs: seq<Event>, key: string, window: int, limit: int, now: int, from: int, len: int)
    requires limit >= 1 && (key in Run(evs) ==> Run(evs)[key].resetAt <= now)
    ensures var all := evs + [Request(key, window, now)];
      && key in Run(all) && Run(all)[key] == Entry(1, now + window)
      && InInterval(Passes(all, key, limit), from, len) ==
         InInterval(Passes(evs, key, limit), from, len) + if from <= now < from + len then 1 else 0
  {
    var all := evs + [Request(key, window, now)];
    assert all[..|all| - 1] == evs;
    var ps := Passes(all, key, limit);
    assert ps[..|ps| - 1] == Passes(evs, key, limit);
  }

  /** A steady trace that has not gone beyond `now`. */
  ghost predicate SteadyUntil(evs: seq<Event>, key: string, window: int, now: int) {
    Steady(evs, key, window) && forall i :: 0 <= i < |evs| ==> evs[i].now <= now
  }

  lemma RequestSteady(evs: seq<Event>, key: string, window: int, before: int, now: int)
    requires SteadyUntil(evs, key, window, before) && before <= now
    ensures SteadyUntil(evs + [Request(key, window, now)], key, window, now)
  {
  }

  lemma {:induction false} BurstSteady(evs: seq<Event>, key: string, window: int, before: int, now: int, n: nat)
    requires SteadyUntil(evs, key, window, before) && before <= now
    ensures SteadyUntil(evs + Burst(key, window, now, n), key, window, now)
  {
    if n == 0 {
      assert evs + Burst(key, window, now, n) == evs;
    } else {
      var init := evs + Burst(key, window, now, n - 1);
      BurstSteady(evs, key, window, before, now, n - 1);
      RequestSteady(init, key, window, now, now);
      assert evs + Burst(key, window, now, n) == init + [Request(key, window, now)];
    }
  }

  /** A window opened at 0 and filled up in its last millisecond. */
  function Filled(key: string, window: int, limit: nat): seq<Event>
    requires limit >= 1
  {
    [Request(key, window, 0)] + Burst(key, window, window - 1, limit - 1)
  }

  /** The next window follows at once and is filled up in its first millisecond. */
  function FilledTwice(key: string, window: int, limit: nat): seq<Event>
    requires limit >= 1
  {
    Filled(key, window, limit) + [Request(key, window, window)] + Burst(key, window, window, limit - 1)
  }

  lemma FilledSteady(key: string, window: int, limit: nat)
    requires window >= 1 && limit >= 1
    ensures SteadyUntil(Filled(key, window, limit), key, window, window - 1)
    ensures Steady(FilledTwice(key, window, limit), key, window)
  {
    var first := Filled(key, window, limit);
    RequestSteady([], key, window, 0, 0);
    assert [] + [Request(key, window, 0)] == [Request(key, window, 0)];
    BurstSteady([Request(key, window, 0)], key, window, 0, window - 1, limit - 1);
    RequestSteady(first, key, window, window - 1, window);
    BurstSteady(first + [Request(key, window, window)], key, window, window, window, limit - 1);
  }

  lemma FilledPasses(key: string, window: int, limit: nat)
    requires window >= 1 && limit >= 1
    ensures var first := Filled(key, window, limit);
      && key in Run(first) && Run(first)[key] == Entry(limit, window)
      && InInterval(Passes(first, key, limit), window - 1, window) == if window == 1 then limit else limit - 1
  {
    var from := window - 1;
    assert key !in Run([]) && InInterval(Passes([], key, limit), from, window) == 0;
    hide Run, Passes, InInterval, Burst;
    OpenerPasses([], key, window, limit, 0, from, window);
    assert [] + [Request(key, window, 0)] == [Request(key, window, 0)];
    BurstPasses([Request(key, window, 0)], key, window, limit, from, limit - 1, from, window);
  }

  lemma FilledTwicePasses(key: string, window: int, limit: nat)
    requires window >= 2 && limit >= 1
    ensures InInterval(Passes(FilledTwice(key, window, limit), key, limit), window - 1, window) == 2 * limit - 1
  {
    hide Run, Passes, InInterval, Burst, Filled;
    var first, from := Filled(key, window, limit), window - 1;
    FilledPasses(key, window, limit);
    OpenerPasses(first, key, window, limit, window, from, window);
    BurstPasses(first + [Request(key, window, window)], key, window, limit, window, limit - 1, from, window);
  }

  /** For every window and limit the bound is reached, by a trace of the kind it is proved for. */
  lemma PeakReached(key: string, window: int, limit: int) returns (evs: seq<Event>)
    requires window >= 1
    ensures Steady(evs, key, window)
    ensures InInterval(Passes(evs, key, limit), window - 1, window) == Bound(window, limit)
  {
    if limit < 1 {
      evs := [];
    } else {
      hide Run, Passes, InInterval, Filled, FilledTwice;
      FilledSteady(key, window, limit);
      if window == 1 {
        FilledPasses(key, window, limit);
        evs := Filled(key, window, limit);
      } else {
        FilledTwicePasses(key, window, limit);
        evs := FilledTwice(key, window, limit);
      }
    }
  }
}
