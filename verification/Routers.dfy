/** The routers as objects: tables and caches updated in place by registrations and lookups. */
module Routers {
  import opened Wrappers
  import opened RouteTypes
  import opened RouteOrder
  import opened RouterSpec
  import LruSpec
  import opened LruCache
  import HybridSpec

  class FastRouteCache {
    var cache: map<string, RouteMatch>
    var capacity: int
    var enabled: bool

    ghost function View(): FastCache
      reads this
    {
      FastCache(cache, capacity, enabled)
    }

    constructor (capacity: int)
      ensures View() == FastCache(map[], capacity, true)
    {
      this.capacity, cache, enabled := capacity, map[], true;
    }

    method Get(key: string) returns (found: Option<RouteMatch>)
      ensures found == FastGet(View(), key)
    {
      if !enabled {
        return None;
      }
      if key in cache {
        return Some(cache[key]);
      }
      return None;
    }

    method Put(key: string, value: RouteMatch)
      modifies this
      ensures View() == FastPut(old(View()), key, value)
      ensures enabled ==> key in cache && cache[key] == value
      ensures enabled && |old(cache)| < capacity ==> forall k :: k in old(cache) && k != key ==> k in cache && cache[k] == old(cache)[k]
      ensures enabled && |old(cache)| >= capacity ==> cache.Keys == {key}
    {
      if !enabled {
        return;
      }
      if |cache| >= capacity {
        cache := map[];
      }
      cache := cache[key := value];
    }

    method SetEnabled(enabled: bool)
      modifies this
      ensures View() == old(View()).(enabled := enabled, cache := if enabled then old(cache) else map[])
    {
      this.enabled := enabled;
      if !enabled {
        cache := map[];
      }
    }
  }

  /** Inserts an element behind all elements of no greater score. */
  method InsertSorted<T>(xs: seq<T>, x: T, score: T -> int) returns (r: seq<T>)
    requires SortedBy(xs, score)
    ensures Arranged(r, multiset(xs) + multiset{x}, score)
  {
    var k := |xs|;
    while k > 0 && score(xs[k - 1]) > score(x)
      invariant 0 <= k <= |xs|
      invariant forall i :: k <= i < |xs| ==> score(xs[i]) > score(x)
    {
      k := k - 1;
    }
    assert forall i :: 0 <= i < k ==> score(xs[i]) <= score(xs[k - 1]);
    InsertedSorted(xs, x, k, score);
    r := xs[..k] + [x] + xs[k..];
  }

  /** Some arrangement by ascending score; ties may come in any order. */
  method Sort<T>(xs: seq<T>, score: T -> int) returns (r: seq<T>)
    ensures Arranged(r, multiset(xs), score)
  {
    r := [];
    for i := 0 to |xs|
      invariant Arranged(r, multiset(xs[..i]), score)
    {
      r := InsertSorted(r, xs[i], score);
      assert xs[..i + 1] == xs[..i] + [xs[i]];
    }
    assert xs[..|xs|] == xs;
  }

  /** A static answer: the handler, no parameters, and the handler's own path. */
  ghost predicate IsPlainAnswer(m: RouteMatch) {
    m.params == map[] && m.path == m.handler.path && m.basePath == ""
  }

  class FastRouter {
    const eng: Engine
    const fast: FastRouteCache
    const lru: Cache
    var statics: map<string, RouteMatch>
    var routes: seq<Route>
    var cacheEnabled: bool
    var sortEnabled: bool
    var useFast: bool

    ghost function View(): Router
      reads this, fast, lru, lru.list
    {
      Router(statics, routes, fast.View(), lru.View(), cacheEnabled, useFast)
    }

    ghost predicate Valid()
      reads this, lru, lru.list
    {
      && lru.Valid() && (sortEnabled ==> SortedBy(routes, Score))
      && forall key :: key in statics ==> IsPlainAnswer(statics[key])
    }

    constructor (eng: Engine, cacheSize: int, now: int)
      ensures Valid() && fresh(fast) && fresh(lru) && lru.list == []
      ensures View() == Router(map[], [], FastCache(map[], cacheSize * 10, true), LruSpec.New(cacheSize, 3600, now), true, true)
      ensures sortEnabled
    {
      this.eng := eng;
      fast := new FastRouteCache(cacheSize * 10);
      lru := new Cache(cacheSize, 3600, now);
      statics, routes := map[], [];
      cacheEnabled, sortEnabled, useFast := true, true, true;
    }

    /** Registers a handler; a dynamic pattern that does not compile is refused. */
    method AddRoute(verb: string, handler: Handler) returns (ok: bool)
      requires Valid()
      modifies this
      ensures Valid()
      ensures ':' !in handler.path && '*' !in handler.path ==>
        && ok && View() == old(View()).(statics :=
            old(statics)[verb + ":" + handler.path := RouteMatch(handler, map[], handler.path, "")])
      ensures (':' in handler.path || '*' in handler.path) && !eng.compiles(handler.path) ==> !ok && View() == old(View())
      ensures (':' in handler.path || '*' in handler.path) && eng.compiles(handler.path) ==>
        var route := RouteFor(verb, handler);
        && ok && View() == old(View()).(routes := routes)
        && (sortEnabled ==> Arranged(routes, multiset(old(routes)) + multiset{route}, Score))
        && (!sortEnabled ==> routes == old(routes) + [route])
    {
      if ':' !in handler.path && '*' !in handler.path {
        statics := statics[CacheKey(verb, handler.path) := RouteMatch(handler, map[], handler.path, "")];
        return true;
      }
      if !eng.compiles(handler.path) {
        return false;
      }
      routes := routes + [Route(verb, handler, Complexity(handler.path))];
      if sortEnabled {
        routes := Sort(routes, Score);
      }
      return true;
    }

    method SetSortEnabled(enabled: bool)
      requires Valid()
      modifies this
      ensures Valid() && sortEnabled == enabled && View() == old(View()).(routes := routes)
      ensures if enabled then Arranged(routes, multiset(old(routes)), Score) else routes == old(routes)
    {
      sortEnabled := enabled;
      if enabled {
        routes := Sort(routes, Score);
      }
    }

    /** The loop over the precompiled routes. */
    method ScanRoutes(verb: string, path: string) returns (found: Option<RouteMatch>)
      ensures found == Scan(eng, routes, verb, path)
    {
      for i := 0 to |routes|
        invariant Scan(eng, routes[i..], verb, path) == Scan(eng, routes, verb, path)
      {
        var route := routes[i];
        assert routes[i..][1..] == routes[i + 1..];
        if route.verb != verb {
          continue;
        }
        if eng.matches(route.handler.path, path) {
          return Some(RouteMatch(route.handler, eng.captures(route.handler.path, path), route.handler.path, ""));
        }
      }
      return None;
    }

    method AskCaches(key: string, now: int) returns (hit: Option<RouteMatch>)
      requires Valid()
      modifies lru, lru.Nodes()
      ensures Valid() && (View(), hit) == Cached(old(View()), key, now)
      ensures lru.Nodes() <= old(lru.Nodes())
    {
      hit := None;
      if cacheEnabled && useFast {
        hit := fast.Get(key);
      } else if cacheEnabled {
        hit := lru.Get(key, now);
      }
    }

    method Store(key: string, m: RouteMatch, now: int)
      requires Valid()
      modifies fast, lru, lru.Nodes()
      ensures Valid() && View() == Stored(old(View()), key, m, now)
      ensures fresh(lru.Nodes() - old(lru.Nodes()))
    {
      if cacheEnabled {
        if useFast {
          fast.Put(key, m);
        } else {
          lru.Put(key, m, now);
        }
      }
    }

    method MatchRoute(verb: string, path: string, now: int) returns (found: Option<RouteMatch>)
      requires Valid()
      modifies fast, lru, lru.Nodes()
      ensures Valid() && (View(), found) == RouterSpec.MatchRoute(eng, old(View()), verb, path, now)
      ensures fresh(lru.Nodes() - old(lru.Nodes()))
    {
      var key := CacheKey(verb, path);
      if key in statics {
        return Some(statics[key]);
      }
      found := AskCaches(key, now);
      if found.None? {
        found := ScanRoutes(verb, path);
        if found.Some? {
          Store(key, found.value, now);
        }
      }
    }

    /** A lookup as a client sees it: with true caches, the answer of the uncached resolver. */
    method Serve(verb: string, path: string, ghost clock: int, now: int) returns (found: Option<RouteMatch>)
      requires Valid() && Sound(eng, Plain, View(), clock) && clock <= now && Plain(verb)
      modifies fast, lru, lru.Nodes()
      ensures Valid() && Sound(eng, Plain, View(), now)
      ensures found == Resolve(eng, old(View()), verb, path) && RightAnswer(eng, old(View()), verb, path, found)
      ensures View().statics == old(View()).statics && View().routes == old(View()).routes
      ensures fresh(lru.Nodes() - old(lru.Nodes()))
    {
      PlainAgree(eng, View());
      MatchIsResolve(eng, Plain, View(), verb, path, clock, now);
      ResolveExactly(eng, View(), verb, path);
      hide RightAnswer;
      found := MatchRoute(verb, path, now);
    }

    /** A client's sequence of lookups, each at its own time. */
    method ServeMany(requests: seq<Event>, ghost clock: int) returns (answers: seq<Option<RouteMatch>>)
      requires Valid() && Sound(eng, Plain, View(), clock) && Proper(Plain, clock, requests)
      requires forall i :: 0 <= i < |requests| ==> requests[i].op.Lookup?
      modifies fast, lru, lru.Nodes()
      ensures Valid() && Sound(eng, Plain, View(), LastTime(clock, requests))
      ensures |answers| == |requests| && forall i :: 0 <= i < |requests| ==>
        answers[i] == Resolve(eng, old(View()), requests[i].op.verb, requests[i].op.path)
      ensures fresh(lru.Nodes() - old(lru.Nodes()))
    {
      hide Sound, Scan, Resolve, Valid, View;
      answers := [];
      ghost var r, last := View(), clock;
      for i := 0 to |requests|
        invariant Valid() && Sound(eng, Plain, View(), last) && fresh(lru.Nodes() - old(lru.Nodes()))
        invariant View().statics == r.statics && View().routes == r.routes
        invariant last == if i == 0 then clock else requests[i - 1].now
        invariant |answers| == i
        invariant forall j :: 0 <= j < i ==> answers[j] == Resolve(eng, r, requests[j].op.verb, requests[j].op.path)
      {
        var ev := requests[i];
        ResolveSame(eng, r, View(), ev.op.verb, ev.op.path);
        var found := Serve(ev.op.verb, ev.op.path, last, ev.now);
        answers, last := answers + [found], ev.now;
      }
    }

    method ClearCache(now: int)
      requires Valid()
      modifies lru, lru.Nodes()
      ensures Valid() && View() == old(View()).(lru := LruSpec.Cleared(old(View()).lru, now)) && lru.list == []
    {
      lru.Clear(now);
    }

    method SetCacheEnabled(enabled: bool, now: int)
      requires Valid()
      modifies this, lru, lru.Nodes()
      ensures Valid() && View() == RouterSpec.Serve(eng, old(View()), Event(Op.SetCacheEnabled(enabled), now))
      ensures cacheEnabled == enabled && fast.cache == old(fast.cache)
      ensures if enabled then lru.View() == old(lru.View()) else lru.list == []
    {
      cacheEnabled := enabled;
      if !enabled {
        ClearCache(now);
      }
    }

    /** Looks up each path once, at a moment when the clock shows `now`. */
    method WarmupCache(paths: seq<string>, verb: string, now: int)
      requires Valid()
      modifies fast, lru, lru.Nodes()
      ensures Valid()
      ensures View() == if !cacheEnabled then old(View()) else ServeAll(eng, old(View()), Lookups(paths, verb, now))
      ensures fresh(lru.Nodes() - old(lru.Nodes()))
    {
      if !cacheEnabled {
        return;
      }
      for i := 0 to |paths|
        invariant Valid() && fresh(lru.Nodes() - old(lru.Nodes()))
        invariant View() == ServeAll(eng, old(View()), Lookups(paths[..i], verb, now))
        invariant cacheEnabled == old(cacheEnabled)
      {
        LookupsNext(paths, i, verb, now);
        var _ := MatchRoute(verb, paths[i], now);
      }
      assert paths[..|paths|] == paths;
    }
  }

  ghost function Lookups(paths: seq<string>, verb: string, now: int): (evs: seq<Event>)
    ensures |evs| == |paths|
    ensures forall i :: 0 <= i < |paths| ==> evs[i].op == Lookup(verb, paths[i]) && evs[i].now == now
  {
    seq(|paths|, i requires 0 <= i < |paths| => Event(Lookup(verb, paths[i]), now))
  }

  lemma LookupsNext(paths: seq<string>, i: int, verb: string, now: int)
    requires 0 <= i < |paths|
    ensures var evs := Lookups(paths[..i + 1], verb, now);
      evs[..|evs| - 1] == Lookups(paths[..i], verb, now) && evs[|evs| - 1] == Event(Lookup(verb, paths[i]), now)
  {
  }

  // ---------- The hybrid router ----------

  predicate IsStaticPath(path: string) {
    ':' !in path && '*' !in path && '?' !in path && '+' !in path
  }

  class HybridRouter {
    const eng: Engine
    const cache: Cache
    var statics: map<string, Handler>
    var dynamics: seq<Handler>
    var regexes: HybridSpec.RegexCache

    ghost function View(): HybridSpec.Hybrid
      reads this, cache, cache.list
    {
      HybridSpec.Hybrid(statics, dynamics, cache.View(), regexes)
    }

    ghost predicate Valid()
      reads this, cache, cache.list
    {
      && cache.Valid() && SortedBy(dynamics, HybridSpec.PathScore)
      && forall p :: p in regexes ==> regexes[p].pattern == p
    }

    constructor (eng: Engine, now: int)
      ensures Valid() && fresh(cache) && cache.list == []
      ensures View() == HybridSpec.Hybrid(map[], [], LruSpec.New(1000, 3600, now), map[])
    {
      this.eng := eng;
      cache := new Cache(1000, 3600, now);
      statics, dynamics, regexes := map[], [], map[];
    }

    /** The list of dynamic handlers stays ordered by complexity; it does not record the method. */
    method AddRoute(verb: string, handler: Handler)
      requires Valid()
      modifies this
      ensures Valid()
      ensures ':' !in handler.path && '*' !in handler.path && '?' !in handler.path && '+' !in handler.path ==>
        View() == old(View()).(statics := old(statics)[verb + ":" + handler.path := handler])
      ensures ':' in handler.path || '*' in handler.path || '?' in handler.path || '+' in handler.path ==>
        && View() == old(View()).(dynamics := dynamics)
        && Arranged(dynamics, multiset(old(dynamics)) + multiset{handler}, HybridSpec.PathScore)
    {
      if IsStaticPath(handler.path) {
        statics := statics[CacheKey(verb, handler.path) := handler];
      } else {
        dynamics := Sort(dynamics + [handler], HybridSpec.PathScore);
      }
    }

    /** The compiled form of a pattern, from the regex cache if it is there. */
    method MatchPathWithRegex(path: string, pattern: string) returns (matched: bool, named: bool)
      modifies this`regexes
      ensures var (rc, c) := HybridSpec.Regex(eng, old(regexes), pattern);
        && regexes == rc
        && matched == (c.Some? && eng.matches(c.value.pattern, path))
        && named == (c.Some? && c.value.named)
      ensures HybridSpec.RegexSound(eng, old(regexes)) ==>
        && HybridSpec.RegexSound(eng, regexes)
        && matched == HybridSpec.PatternHits(eng, pattern, path)
        && (matched ==> named == ('*' !in pattern))
      ensures ('*' in pattern || ':' in pattern) && eng.compiles(pattern) ==> pattern in regexes
    {
      if pattern in regexes {
        var c := regexes[pattern];
        return eng.matches(c.pattern, path), c.named;
      }
      if '*' in pattern {
        if !eng.compiles(pattern) {
          return false, false;
        }
        regexes := regexes[pattern := HybridSpec.Compiled(pattern, false)];
        return eng.matches(pattern, path), false;
      }
      if ':' in pattern {
        if !eng.compiles(pattern) {
          return false, false;
        }
        regexes := regexes[pattern := HybridSpec.Compiled(pattern, true)];
        return eng.matches(pattern, path), true;
      }
      return false, false;
    }

    /** The loop over the dynamic handlers, filling the regex cache as it goes. */
    method ScanHandlers(path: string) returns (found: Option<RouteMatch>)
      requires forall p :: p in regexes ==> regexes[p].pattern == p
      modifies this`regexes
      ensures (regexes, found) == HybridSpec.ScanThrough(eng, old(regexes), dynamics, path)
      ensures forall p :: p in regexes ==> regexes[p].pattern == p
    {
      for i := 0 to |dynamics|
        invariant forall p :: p in regexes ==> regexes[p].pattern == p
        invariant HybridSpec.ScanThrough(eng, regexes, dynamics[i..], path) ==
          HybridSpec.ScanThrough(eng, old(regexes), dynamics, path)
      {
        var h := dynamics[i];
        assert dynamics[i..][0] == h && dynamics[i..][1..] == dynamics[i + 1..];
        var matched, named := MatchPathWithRegex(path, h.path);
        if matched {
          return Some(RouteMatch(h, if named then eng.captures(h.path, path) else map[], h.path, ""));
        }
      }
      return None;
    }

    method MatchRoute(verb: string, path: string, now: int) returns (found: Option<RouteMatch>)
      requires Valid()
      modifies this`regexes, cache, cache.Nodes()
      ensures Valid() && (View(), found) == HybridSpec.MatchRoute(eng, old(View()), verb, path, now)
      ensures fresh(cache.Nodes() - old(cache.Nodes()))
    {
      var key := CacheKey(verb, path);
      if key in statics {
        return Some(RouteMatch(statics[key], map[], path, ""));
      }
      found := cache.Get(key, now);
      if found.None? {
        found := ScanAndStore(key, path, now);
      }
    }

    /** The part of the lookup after both the static table and the cache have missed. */
    method ScanAndStore(key: string, path: string, now: int) returns (found: Option<RouteMatch>)
      requires Valid()
      modifies this`regexes, cache, cache.Nodes()
      ensures Valid() && (regexes, found) == HybridSpec.ScanThrough(eng, old(regexes), dynamics, path)
      ensures cache.View() == if found.Some? then LruSpec.Put(old(cache.View()), key, found.value, now) else old(cache.View())
      ensures fresh(cache.Nodes() - old(cache.Nodes()))
    {
      found := ScanHandlers(path);
      if found.Some? {
        cache.Put(key, found.value, now);
      }
    }

    /** A lookup as a client sees it: with true caches, the answer of the uncached resolver. */
    method Serve(verb: string, path: string, ghost clock: int, now: int) returns (found: Option<RouteMatch>)
      requires Valid() && HybridSpec.Sound(eng, Plain, View(), clock) && clock <= now && Plain(verb)
      modifies this`regexes, cache, cache.Nodes()
      ensures Valid() && HybridSpec.Sound(eng, Plain, View(), now)
      ensures found == HybridSpec.Resolve(eng, old(View()), verb, path)
      ensures HybridSpec.RightAnswer(eng, old(View()), verb, path, found)
      ensures fresh(cache.Nodes() - old(cache.Nodes()))
    {
      HybridSpec.PlainAgree(eng, View());
      HybridSpec.MatchIsResolve(eng, Plain, View(), verb, path, clock, now);
      HybridSpec.ResolveExactly(eng, View(), verb, path);
      hide HybridSpec.RightAnswer;
      found := MatchRoute(verb, path, now);
    }
  }
}
