/** The hybrid router: static routes by method and path, dynamic ones by path alone. */
module HybridSpec {
  import opened Wrappers
  import opened RouteTypes
  import opened RouteOrder
  import opened LruSpec
  import opened RouterSpec

  /** A compiled pattern; only ':' patterns have named groups. */
  datatype Compiled = Compiled(pattern: string, named: bool)

  type RegexCache = map<string, Compiled>

  predicate IsPattern(pattern: string) {
    '*' in pattern || ':' in pattern
  }

  function Compile(pattern: string): Compiled {
    Compiled(pattern, '*' !in pattern)
  }

  /** Whether a pattern matches, without any cache; text without '*' or ':' matches nothing. */
  predicate PatternHits(eng: Engine, pattern: string, path: string) {
    IsPattern(pattern) && eng.compiles(pattern) && eng.matches(pattern, path)
  }

  function Regex(eng: Engine, rc: RegexCache, pattern: string): (RegexCache, Option<Compiled>) {
    if pattern in rc then (rc, Some(rc[pattern]))
    else if IsPattern(pattern) && eng.compiles(pattern) then (rc[pattern := Compile(pattern)], Some(Compile(pattern)))
    else (rc, None)
  }

  /** The regex cache holds exactly what compiling again would give. */
  ghost predicate RegexSound(eng: Engine, rc: RegexCache) {
    forall p :: p in rc ==> IsPattern(p) && eng.compiles(p) && rc[p] == Compile(p)
  }

  function HandlerMatch(eng: Engine, c: Compiled, h: Handler, path: string): RouteMatch {
    RouteMatch(h, if c.named then eng.captures(c.pattern, path) else map[], h.path, "")
  }

  /** The scan over the dynamic handlers, through the regex cache. */
  function ScanThrough(eng: Engine, rc: RegexCache, hs: seq<Handler>, path: string): (RegexCache, Option<RouteMatch>)
    decreases |hs|
  {
    if hs == [] then (rc, None)
    else
      var (rc1, c) := Regex(eng, rc, hs[0].path);
      if c.Some? && eng.matches(c.value.pattern, path) then (rc1, Some(HandlerMatch(eng, c.value, hs[0], path)))
      else ScanThrough(eng, rc1, hs[1..], path)
  }

  /** The scan without any cache. */
  function PlainScan(eng: Engine, hs: seq<Handler>, path: string): Option<RouteMatch> {
    if hs == [] then None
    else if PatternHits(eng, hs[0].path, path) then Some(HandlerMatch(eng, Compile(hs[0].path), hs[0], path))
    else PlainScan(eng, hs[1..], path)
  }

  lemma {:induction false} ScanThroughIsPlain(eng: Engine, rc: RegexCache, hs: seq<Handler>, path: string)
    requires RegexSound(eng, rc)
    ensures var (rc', m) := ScanThrough(eng, rc, hs, path); m == PlainScan(eng, hs, path) && RegexSound(eng, rc')
    decreases |hs|
  {
    if hs != [] {
      var (rc1, c) := Regex(eng, rc, hs[0].path);
      if !(c.Some? && eng.matches(c.value.pattern, path)) {
        ScanThroughIsPlain(eng, rc1, hs[1..], path);
      }
    }
  }

  datatype Hybrid = Hybrid(statics: map<string, Handler>, dynamics: seq<Handler>, cache: Lru, regexes: RegexCache)

  function Resolve(eng: Engine, r: Hybrid, verb: string, path: string): Option<RouteMatch> {
    var key := CacheKey(verb, path);
    if key in r.statics then Some(RouteMatch(r.statics[key], map[], path, "")) else PlainScan(eng, r.dynamics, path)
  }

  function MatchRoute(eng: Engine, r: Hybrid, verb: string, path: string, now: int): (Hybrid, Option<RouteMatch>) {
    var key := CacheKey(verb, path);
    if key in r.statics then (r, Some(RouteMatch(r.statics[key], map[], path, "")))
    else
      var (cache, hit) := Got(r.cache, key, now);
      if hit.Some? then (r.(cache := cache), hit)
      else
        var (regexes, m) := ScanThrough(eng, r.regexes, r.dynamics, path);
        (r.(cache := if m.Some? then Put(cache, key, m.value, now) else cache, regexes := regexes), m)
  }

  /**
   The right answer to a lookup, said on the tables: the static handler under the key, or else the first
   handler whose pattern matches, whatever the method; a pattern with '*' captures nothing.
   */
  ghost predicate RightAnswer(eng: Engine, r: Hybrid, verb: string, path: string, found: Option<RouteMatch>) {
    if verb + ":" + path in r.statics then
      found == Some(RouteMatch(r.statics[verb + ":" + path], map[], path, ""))
    else
      match found
      case None => forall i :: 0 <= i < |r.dynamics| ==> !Fits(eng, r.dynamics[i].path, path)
      case Some(m) =>
        exists i :: 0 <= i < |r.dynamics| && FirstFor(eng, r.dynamics, path, i) && Carries(m, eng, r.dynamics[i], path)
  }

  ghost predicate FirstFor(eng: Engine, hs: seq<Handler>, path: string, i: int)
    requires 0 <= i < |hs|
  {
    Fits(eng, hs[i].path, path) && forall j :: 0 <= j < i ==> !Fits(eng, hs[j].path, path)
  }

  ghost predicate Carries(m: RouteMatch, eng: Engine, h: Handler, path: string) {
    && m.handler == h && m.path == h.path && m.basePath == ""
    && m.params == if '*' in h.path then map[] else eng.captures(h.path, path)
  }

  ghost predicate Fits(eng: Engine, pattern: string, path: string) {
    ('*' in pattern || ':' in pattern) && eng.compiles(pattern) && eng.matches(pattern, path)
  }

  lemma {:induction false} PlainScanExactly(eng: Engine, hs: seq<Handler>, path: string)
    ensures var r := Hybrid(map[], hs, New(0, 0, 0), map[]);
      RightAnswer(eng, r, "", path, PlainScan(eng, hs, path))
  {
    if hs != [] {
      var rest := hs[1..];
      assert forall i :: 1 <= i < |hs| ==> hs[i] == rest[i - 1];
      if PatternHits(eng, hs[0].path, path) {
        assert FirstFor(eng, hs, path, 0);
      } else {
        PlainScanExactly(eng, rest, path);
        if PlainScan(eng, rest, path).Some? {
          var m := PlainScan(eng, rest, path).value;
          var k :| 0 <= k < |rest| && FirstFor(eng, rest, path, k) && Carries(m, eng, rest[k], path);
          assert hs[k + 1] == rest[k];
          forall j | 0 <= j < k + 1 ensures !Fits(eng, hs[j].path, path) {
            assert j > 0 ==> hs[j] == rest[j - 1];
          }
          assert FirstFor(eng, hs, path, k + 1);
        }
      }
    }
  }

  lemma ResolveExactly(eng: Engine, r: Hybrid, verb: string, path: string)
    ensures RightAnswer(eng, r, verb, path, Resolve(eng, r, verb, path))
  {
    PlainScanExactly(eng, r.dynamics, path);
    hide PlainScan, FirstFor, Fits;
  }

  ghost predicate Truthful(eng: Engine, ok: string -> bool, hs: seq<Handler>, key: string, m: RouteMatch) {
    forall verb, path :: ok(verb) && CacheKey(verb, path) == key ==> PlainScan(eng, hs, path) == Some(m)
  }

  ghost predicate AllTrue(eng: Engine, ok: string -> bool, hs: seq<Handler>, c: Lru, clock: int) {
    (forall e :: e in c.entries ==> Truthful(eng, ok, hs, e.key, e.value)) && Ordered(c.entries, clock)
  }

  ghost predicate Sound(eng: Engine, ok: string -> bool, r: Hybrid, clock: int) {
    AllTrue(eng, ok, r.dynamics, r.cache, clock) && RegexSound(eng, r.regexes)
  }

  /** Lookups with admitted methods that share a key are answered alike, unless the key is static. */
  ghost predicate Agree(eng: Engine, ok: string -> bool, r: Hybrid) {
    forall verb, path, verb', path' ::
      ok(verb) && ok(verb') && CacheKey(verb, path) == CacheKey(verb', path')
      && CacheKey(verb, path) !in r.statics && PlainScan(eng, r.dynamics, path).Some?
      ==> PlainScan(eng, r.dynamics, path') == PlainScan(eng, r.dynamics, path)
  }

  lemma PlainAgree(eng: Engine, r: Hybrid)
    ensures Agree(eng, Plain, r)
  {
    forall verb, path, verb', path' | Plain(verb) && Plain(verb') && CacheKey(verb, path) == CacheKey(verb', path')
      ensures path == path'
    {
      KeyInjective(verb, path, verb', path');
    }
  }

  lemma GotTrue(eng: Engine, ok: string -> bool, hs: seq<Handler>, c: Lru, verb: string, path: string, clock: int, now: int)
    requires AllTrue(eng, ok, hs, c, clock) && clock <= now && ok(verb)
    ensures var (c', hit) := Got(c, CacheKey(verb, path), now);
      AllTrue(eng, ok, hs, c', now) && (hit.Some? ==> hit == PlainScan(eng, hs, path))
  {
    var key := CacheKey(verb, path);
    var (c', hit) := Got(c, key, now);
    assert Ordered(c.entries, now);
    GotOrdered(c, key, now);
    forall e | e in c'.entries ensures Truthful(eng, ok, hs, e.key, e.value) {
      GotMembers(c, key, now, e);
    }
    if hit.Some? {
      HitIsFresh(c, key, now);
    }
  }

  lemma PutTrue(eng: Engine, ok: string -> bool, hs: seq<Handler>, c: Lru, key: string, m: RouteMatch, now: int)
    requires AllTrue(eng, ok, hs, c, now) && Truthful(eng, ok, hs, key, m)
    ensures AllTrue(eng, ok, hs, Put(c, key, m, now), now)
  {
    PutOrdered(c, key, m, now);
    forall e | e in Put(c, key, m, now).entries ensures Truthful(eng, ok, hs, e.key, e.value) {
      PutMembers(c, key, m, now, e);
    }
  }

  /** A lookup through both caches answers what the uncached resolver answers, and keeps the caches true. */
  lemma MatchIsResolve(eng: Engine, ok: string -> bool, r: Hybrid, verb: string, path: string, clock: int, now: int)
    requires Sound(eng, ok, r, clock) && Agree(eng, ok, r) && clock <= now && ok(verb)
    ensures var (r', answer) := MatchRoute(eng, r, verb, path, now);
      && answer == Resolve(eng, r, verb, path) && Sound(eng, ok, r', now)
      && r'.dynamics == r.dynamics && r'.statics == r.statics
  {
    var key, m := CacheKey(verb, path), PlainScan(eng, r.dynamics, path);
    assert Ordered(r.cache.entries, now);
    if key !in r.statics {
      var (cache, hit) := Got(r.cache, key, now);
      GotTrue(eng, ok, r.dynamics, r.cache, verb, path, clock, now);
      ScanThroughIsPlain(eng, r.regexes, r.dynamics, path);
      if m.Some? {
        assert Truthful(eng, ok, r.dynamics, key, m.value);
        PutTrue(eng, ok, r.dynamics, cache, key, m.value, now);
      }
    }
  }

  datatype Op =
    | Lookup(verb: string, path: string)
    | AddStatic(verb: string, handler: Handler)
    | ClearCache
    | ClearRegexCache
    | WarmUp(pattern: string)

  datatype Event = Event(op: Op, now: int)

  function Serve(eng: Engine, r: Hybrid, ev: Event): Hybrid {
    match ev.op
    case Lookup(verb, path) => MatchRoute(eng, r, verb, path, ev.now).0
    case AddStatic(verb, h) => r.(statics := r.statics[CacheKey(verb, h.path) := h])
    case ClearCache => r.(cache := Cleared(r.cache, ev.now))
    case ClearRegexCache => r.(regexes := map[])
    case WarmUp(pattern) => r.(regexes := Regex(eng, r.regexes, pattern).0)
  }

  function ServeAll(eng: Engine, r: Hybrid, evs: seq<Event>): Hybrid {
    if evs == [] then r else Serve(eng, ServeAll(eng, r, evs[..|evs| - 1]), evs[|evs| - 1])
  }

  ghost predicate Proper(ok: string -> bool, start: int, evs: seq<Event>) {
    && (forall i :: 0 <= i < |evs| ==> start <= evs[i].now && (evs[i].op.Lookup? ==> ok(evs[i].op.verb)))
    && (forall i, j :: 0 <= i < j < |evs| ==> evs[i].now <= evs[j].now)
  }

  function LastTime(start: int, evs: seq<Event>): int {
    if evs == [] then start else evs[|evs| - 1].now
  }

  lemma ServeSound(eng: Engine, ok: string -> bool, r: Hybrid, ev: Event, clock: int)
    requires Sound(eng, ok, r, clock) && Agree(eng, ok, r) && clock <= ev.now && (ev.op.Lookup? ==> ok(ev.op.verb))
    ensures var r' := Serve(eng, r, ev);
      Sound(eng, ok, r', ev.now) && Agree(eng, ok, r') && r'.dynamics == r.dynamics
  {
    hide MatchRoute, PlainScan;
    assert Ordered(r.cache.entries, ev.now);
    if ev.op.Lookup? {
      MatchIsResolve(eng, ok, r, ev.op.verb, ev.op.path, clock, ev.now);
    }
  }

  lemma {:induction false} ServeAllSound(eng: Engine, ok: string -> bool, r: Hybrid, evs: seq<Event>, start: int)
    requires r.cache.entries == [] && r.regexes == map[] && Agree(eng, ok, r) && Proper(ok, start, evs)
    ensures var r' := ServeAll(eng, r, evs);
      Sound(eng, ok, r', LastTime(start, evs)) && Agree(eng, ok, r') && r'.dynamics == r.dynamics
  {
    if evs != [] {
      var init, ev := evs[..|evs| - 1], evs[|evs| - 1];
      ServeAllSound(eng, ok, r, init, start);
      ServeSound(eng, ok, ServeAll(eng, r, init), ev, LastTime(start, init));
    }
  }

  /** A lookup after a run answers what the uncached resolver would answer at that moment. */
  ghost predicate RightAfter(eng: Engine, r: Hybrid, evs: seq<Event>, verb: string, path: string, now: int) {
    var r' := ServeAll(eng, r, evs);
    MatchRoute(eng, r', verb, path, now).1 == Resolve(eng, r', verb, path)
  }

  /** Neither the LRU cache nor the regex cache ever changes an answer, if methods contain no colon. */
  lemma CachesAreInvisible(eng: Engine, r: Hybrid, evs: seq<Event>, start: int, verb: string, path: string, now: int)
    requires r.cache.entries == [] && r.regexes == map[] && Plain(verb)
    requires Proper(Plain, start, evs) && LastTime(start, evs) <= now
    ensures RightAfter(eng, r, evs, verb, path, now)
  {
    PlainAgree(eng, r);
    ServeAllSound(eng, Plain, r, evs, start);
    MatchIsResolve(eng, Plain, ServeAll(eng, r, evs), verb, path, LastTime(start, evs), now);
  }

  /** What was just put is hit at the same moment. */
  lemma PutIsHit(c: Lru, key: string, m: RouteMatch, now: int)
    requires c.entries == [] && c.lastCleanup <= now
    ensures Got(Put(c, key, m, now), key, now).1 == Some(m)
  {
    var c' := Put(c, key, m, now);
    assert Live(c, [], now) == [];
    assert c'.entries == [Entry(key, m, now, now)];
    LiveIsHit(c', key, now, c'.entries[0]);
  }

  /** For whatever set of methods, all lookups of all runs are right if and only if shared keys agree. */
  lemma CachesAreInvisibleIff(eng: Engine, ok: string -> bool, r: Hybrid)
    requires r.cache.entries == [] && r.regexes == map[]
    ensures Agree(eng, ok, r) <==>
      forall evs, start, verb, path, now :: Proper(ok, start, evs) && ok(verb) && LastTime(start, evs) <= now ==>
        RightAfter(eng, r, evs, verb, path, now)
  {
    if Agree(eng, ok, r) {
      hide MatchRoute, Resolve, PlainScan;
      forall evs, start, verb, path, now | Proper(ok, start, evs) && ok(verb) && LastTime(start, evs) <= now
        ensures RightAfter(eng, r, evs, verb, path, now)
      {
        ServeAllSound(eng, ok, r, evs, start);
        MatchIsResolve(eng, ok, ServeAll(eng, r, evs), verb, path, LastTime(start, evs), now);
      }
    } else {
      var verb, path, verb', path' :| ok(verb) && ok(verb') && CacheKey(verb, path) == CacheKey(verb', path')
        && CacheKey(verb, path) !in r.statics && PlainScan(eng, r.dynamics, path).Some?
        && PlainScan(eng, r.dynamics, path') != PlainScan(eng, r.dynamics, path);
      var now := r.cache.lastCleanup;
      var evs := [Event.Event(Op.Lookup(verb, path), now)];
      WrongAfter(eng, r, verb, path, verb', path', now);
      hide RightAfter, PlainScan;
      assert Proper(ok, now, evs) && LastTime(now, evs) == now;
    }
  }

  /** A lookup right after another one with the same key gets its answer. */
  lemma WrongAfter(eng: Engine, r: Hybrid, verb: string, path: string, verb': string, path': string, now: int)
    requires r.cache.entries == [] && r.regexes == map[] && r.cache.lastCleanup <= now
    requires CacheKey(verb, path) == CacheKey(verb', path') && CacheKey(verb, path) !in r.statics
    requires PlainScan(eng, r.dynamics, path).Some?
    requires PlainScan(eng, r.dynamics, path') != PlainScan(eng, r.dynamics, path)
    ensures !RightAfter(eng, r, [Event.Event(Op.Lookup(verb, path), now)], verb', path', now)
  {
    LookedUpOnce(eng, r, verb, path, now);
  }

  lemma LookedUpOnce(eng: Engine, r: Hybrid, verb: string, path: string, now: int)
    requires r.cache.entries == [] && r.regexes == map[] && r.cache.lastCleanup <= now
    requires CacheKey(verb, path) !in r.statics && PlainScan(eng, r.dynamics, path).Some?
    ensures var r' := ServeAll(eng, r, [Event.Event(Op.Lookup(verb, path), now)]);
      && r'.statics == r.statics && r'.dynamics == r.dynamics
      && Got(r'.cache, CacheKey(verb, path), now).1 == PlainScan(eng, r.dynamics, path)
  {
    var key, m := CacheKey(verb, path), PlainScan(eng, r.dynamics, path).value;
    var ev := Event.Event(Op.Lookup(verb, path), now);
    assert [ev][..0] == [] && ServeAll(eng, r, []) == r;
    assert ServeAll(eng, r, [ev]) == Serve(eng, r, ev);
    ScanThroughIsPlain(eng, r.regexes, r.dynamics, path);
    var c := Got(r.cache, key, now).0;
    assert Live(r.cache, [], now) == [];
    assert c.entries == [] && c.lastCleanup <= now;
    PutIsHit(c, key, m, now);
  }

  // ---------- Handler order ----------

  function PathScore(h: Handler): int { Complexity(h.path) }

  function HitsFor(eng: Engine, path: string): Handler -> bool {
    (h: Handler) => PatternHits(eng, h.path, path)
  }

  function Yields(eng: Engine, path: string): Handler -> RouteMatch {
    (h: Handler) => HandlerMatch(eng, Compile(h.path), h, path)
  }

  lemma {:induction false} ScanIsFirst(eng: Engine, hs: seq<Handler>, path: string)
    ensures var first := FirstHit(hs, HitsFor(eng, path));
      PlainScan(eng, hs, path) == if first.Some? then Some(Yields(eng, path)(first.value)) else None
  {
    if hs != [] && !PatternHits(eng, hs[0].path, path) {
      ScanIsFirst(eng, hs[1..], path);
    }
  }

  /** A lookup after the list has become `hs` is right. */
  ghost predicate RightWith(eng: Engine, r: Hybrid, hs: seq<Handler>, verb: string, path: string, now: int) {
    var r' := r.(dynamics := hs);
    MatchRoute(eng, r', verb, path, now).1 == Resolve(eng, r', verb, path)
  }

  /**
   Registering a dynamic handler always sorts and empties no cache. It leaves a lookup right in every order
   the sort may give to ties, if and only if every least match yields what is cached, if anything.
   */
  lemma LateHandlerSeenIff(eng: Engine, ok: string -> bool, r: Hybrid, late: Handler, verb: string, path: string, clock: int, now: int)
    requires Sound(eng, ok, r, clock) && clock <= now && ok(verb)
    ensures var bag := multiset(r.dynamics) + multiset{late};
      var key := CacheKey(verb, path);
      var hit := Got(r.cache, key, now).1;
      (forall hs :: Arranged(hs, bag, PathScore) ==> RightWith(eng, r, hs, verb, path, now))
      <==> (key in r.statics || hit.None?
            || forall h :: Least(bag, HitsFor(eng, path), PathScore, h) ==> Yields(eng, path)(h) == hit.value)
  {
    hide Complexity;
    var key, all := CacheKey(verb, path), r.dynamics + [late];
    var hit := Got(r.cache, key, now).1;
    assert multiset(all) == multiset(r.dynamics) + multiset{late};
    GotTrue(eng, ok, r.dynamics, r.cache, verb, path, clock, now);
    if key !in r.statics && hit.Some? {
      ScanIsFirst(eng, r.dynamics, path);
      var found := FirstHit(r.dynamics, HitsFor(eng, path)).value;
      assert found in all && HitsFor(eng, path)(found);
      AlwaysYieldsIff(all, HitsFor(eng, path), PathScore, Yields(eng, path), hit.value);
      forall hs ensures RightWith(eng, r, hs, verb, path, now) <==>
        var first := FirstHit(hs, HitsFor(eng, path)); first.Some? && Yields(eng, path)(first.value) == hit.value
      {
        ScanIsFirst(eng, hs, path);
      }
    } else if key !in r.statics {
      forall hs ensures RightWith(eng, r, hs, verb, path, now) {
        ScanThroughIsPlain(eng, r.regexes, hs, path);
      }
    }
  }

  /** A new router in which these handlers have been registered. */
  function WithHandlers(hs: seq<Handler>): Hybrid {
    Hybrid(map[], hs, New(1000, 3600, 0), map[])
  }

  /** The simpler of two matching handlers, registered after a lookup, is not seen by that lookup. */
  lemma LateHandlerIsNotSeen(eng: Engine, a: Handler, b: Handler, verb: string, path: string)
    requires a.path == "/:a.:b" && b.path == "/:id" && PatternHits(eng, a.path, path) && PatternHits(eng, b.path, path)
    ensures var served := ServeAll(eng, WithHandlers([a]), [Event.Event(Op.Lookup(verb, path), 0)]);
      forall hs :: Arranged(hs, multiset(served.dynamics) + multiset{b}, PathScore) ==>
        var late := served.(dynamics := hs);
        && MatchRoute(eng, late, verb, path, 0).1 == Some(Yields(eng, path)(a))
        && Resolve(eng, late, verb, path) == Some(Yields(eng, path)(b))
  {
    Scores();
    hide Complexity;
    var r := WithHandlers([a]);
    ScanIsFirst(eng, [a], path);
    FirstHitAt([a], HitsFor(eng, path), 0);
    LookedUpOnce(eng, r, verb, path, 0);
    forall hs | Arranged(hs, multiset([a]) + multiset{b}, PathScore)
      ensures PlainScan(eng, hs, path) == Some(Yields(eng, path)(b))
    {
      assert b in multiset(hs) && HitsFor(eng, path)(b);
      ScanIsFirst(eng, hs, path);
      FirstIsLeast(hs, HitsFor(eng, path), PathScore);
      var first := FirstHit(hs, HitsFor(eng, path)).value;
      assert first in multiset(hs);
    }
  }

  /**
   The list keeps no method: a handler that is alone in matching a path answers lookups of that path with
   every method, whichever it was registered for, unless a static route does.
   */
  lemma MethodIsIgnored(eng: Engine, ok: string -> bool, r: Hybrid, h: Handler, verb: string, path: string, clock: int, now: int)
    requires Sound(eng, ok, r, clock) && Agree(eng, ok, r) && clock <= now && ok(verb)
    requires h in r.dynamics && PatternHits(eng, h.path, path) && CacheKey(verb, path) !in r.statics
    requires forall h' :: h' in r.dynamics && PatternHits(eng, h'.path, path) ==> h' == h
    ensures MatchRoute(eng, r, verb, path, now).1 == Some(Yields(eng, path)(h))
  {
    MatchIsResolve(eng, ok, r, verb, path, clock, now);
    ScanIsFirst(eng, r.dynamics, path);
    assert HitsFor(eng, path)(h);
  }
}
