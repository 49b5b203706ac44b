/**
 The two routers as resolvers with caches: what a lookup answers, what it leaves in the
 caches, and that no cache ever changes an answer.

 The regular-expression library is a parameter: which patterns compile, which paths a
 compiled pattern matches, and what it captures.
 */
module RouterSpec {
  import opened Wrappers
  import opened RouteTypes
  import opened RouteOrder
  import opened LruSpec

  datatype Engine = Engine(compiles: string -> bool, matches: (string, string) -> bool,
                           captures: (string, string) -> map<string, string>)

  /** The text under which a lookup is cached, and under which static routes are stored. */
  function CacheKey(verb: string, path: string): string {
    verb + ":" + path
  }

  /**
   Two lookups, the second with a method no shorter, share a key exactly when they are the same, or when
   the longer method goes on with a colon after the shorter one and the rest of it stands, before another
   colon, in front of the path of the shorter one.
   */
  lemma KeySharedIff(verb: string, path: string, verb': string, path': string)
    requires |verb| <= |verb'|
    ensures CacheKey(verb, path) == CacheKey(verb', path') <==>
      || (verb == verb' && path == path')
      || (|verb| < |verb'|
          && var tail := verb'[|verb| + 1..]; verb' == verb + ":" + tail && path == tail + ":" + path')
  {
    var n, k, k' := |verb|, CacheKey(verb, path), CacheKey(verb', path');
    assert k[..n] == verb && k[n] == ':' && k[n + 1..] == path;
    if n == |verb'| {
      assert k'[..n] == verb' && k'[n + 1..] == path';
    } else {
      var tail := verb'[n + 1..];
      assert verb' == verb'[..n] + [verb'[n]] + tail;
      assert k'[..n] == verb'[..n] && k'[n] == verb'[n] && k'[n + 1..] == tail + ":" + path';
      if verb' == verb + ":" + tail && path == tail + ":" + path' {
        assert k == k';
      }
    }
  }

  predicate Plain(verb: string) {
    ':' !in verb
  }

  /** A key determines the method and the path it was made of, for methods without a colon. */
  lemma KeyInjective(verb: string, path: string, verb': string, path': string)
    requires Plain(verb) && Plain(verb') && CacheKey(verb, path) == CacheKey(verb', path')
    ensures verb == verb' && path == path'
  {
    if |verb| <= |verb'| {
      KeySharedIff(verb, path, verb', path');
    } else {
      KeySharedIff(verb', path', verb, path);
    }
  }

  // ---------- FastRouter ----------

  datatype Route = Route(verb: string, handler: Handler, complexity: int)

  function CountOf(s: string, c: char): nat {
    if s == "" then 0 else CountOf(s[1..], c) + if s[0] == c then 1 else 0
  }

  function CountAll(s: string, cs: string): nat {
    if cs == "" then 0 else CountOf(s, cs[0]) + CountAll(s, cs[1..])
  }

  /** The score by which dynamic routes are ordered. */
  function Complexity(path: string): nat {
    CountOf(path, ':') * 10 + CountOf(path, '*') * 20 + (CountOf(path, '/') + 1) + CountAll(path, "?+.()[]{}^$|") * 5
  }

  lemma {:induction false} CountOfInserted(a: string, c: char, b: string, x: char)
    ensures CountOf(a + [c] + b, x) == CountOf(a + b, x) + if c == x then 1 else 0
  {
    if a == "" {
      assert ([c] + b)[1..] == b && a + [c] + b == [c] + b && a + b == b;
    } else {
      CountOfInserted(a[1..], c, b, x);
      assert (a + [c] + b)[1..] == a[1..] + [c] + b && (a + b)[1..] == a[1..] + b;
    }
  }

  lemma {:induction false} CountAllInserted(a: string, c: char, b: string, cs: string)
    ensures CountAll(a + [c] + b, cs) == CountAll(a + b, cs) + CountOf(cs, c)
  {
    if cs != "" {
      CountOfInserted(a, c, b, cs[0]);
      CountAllInserted(a, c, b, cs[1..]);
    }
  }

  lemma {:induction false} CountOfDistinct(cs: string, c: char)
    requires forall i, j :: 0 <= i < j < |cs| ==> cs[i] != cs[j]
    ensures CountOf(cs, c) == if c in cs then 1 else 0
  {
    if cs != "" {
      CountOfDistinct(cs[1..], c);
      assert cs == [cs[0]] + cs[1..];
    }
  }

  /** What one character adds to the score of a path. */
  function Weight(c: char): nat {
    if c == ':' then 10 else if c == '*' then 20 else if c == '/' then 1
    else if c in "?+.()[]{}^$|" then 5 else 0
  }

  lemma SpecialsDistinct(c: char)
    ensures CountOf("?+.()[]{}^$|", c) == if c in "?+.()[]{}^$|" then 1 else 0
  {
    var cs := "?+.()[]{}^$|";
    assert forall i, j :: 0 <= i < j < |cs| ==> cs[i] != cs[j];
    CountOfDistinct(cs, c);
  }

  /** The score starts at 1 and every character adds its weight, wherever it stands. */
  lemma ComplexityAdds(a: string, c: char, b: string)
    ensures Complexity("") == 1 && Complexity(a + [c] + b) == Complexity(a + b) + Weight(c)
  {
    CountOfInserted(a, c, b, ':');
    CountOfInserted(a, c, b, '*');
    CountOfInserted(a, c, b, '/');
    CountAllInserted(a, c, b, "?+.()[]{}^$|");
    SpecialsDistinct(c);
    NotSpecial(c);
    CountAllNone("", "?+.()[]{}^$|");
    hide CountAll, CountOf;
    assert CountOf("", ':') == 0 && CountOf("", '*') == 0 && CountOf("", '/') == 0 by {
      CountOfNone("", ':');
      CountOfNone("", '*');
      CountOfNone("", '/');
    }
  }

  lemma NotSpecial(c: char)
    ensures c == ':' || c == '*' || c == '/' ==> c !in "?+.()[]{}^$|"
  {
  }

  /** The table entry that a registration of `h` makes. */
  function RouteFor(verb: string, h: Handler): Route {
    Route(verb, h, Complexity(h.path))
  }

  predicate IsStatic(path: string) {
    ':' !in path && '*' !in path
  }

  function MatchOf(eng: Engine, h: Handler, path: string): RouteMatch {
    RouteMatch(h, eng.captures(h.path, path), h.path, "")
  }

  predicate Hits(eng: Engine, route: Route, verb: string, path: string) {
    route.verb == verb && eng.matches(route.handler.path, path)
  }

  /** The first route of the method whose pattern matches. */
  function Scan(eng: Engine, routes: seq<Route>, verb: string, path: string): Option<RouteMatch> {
    if routes == [] then None
    else if Hits(eng, routes[0], verb, path) then Some(MatchOf(eng, routes[0].handler, path))
    else Scan(eng, routes[1..], verb, path)
  }

  /** FastRouteCache: a plain map that is emptied when it is full. */
  datatype FastCache = FastCache(cache: map<string, RouteMatch>, capacity: int, enabled: bool)

  function FastGet(c: FastCache, key: string): Option<RouteMatch> {
    if c.enabled && key in c.cache then Some(c.cache[key]) else None
  }

  function FastPut(c: FastCache, key: string, value: RouteMatch): FastCache {
    if !c.enabled then c
    else c.(cache := (if |c.cache| >= c.capacity then map[] else c.cache)[key := value])
  }

  /** A put keeps the other entries unless the map is full, in which case it keeps none of them. */
  lemma FastPutExactly(c: FastCache, key: string, value: RouteMatch)
    ensures var c' := FastPut(c, key, value);
      && (!c.enabled ==> c' == c)
      && (c.enabled ==> key in c'.cache && c'.cache[key] == value && FastGet(c', key) == Some(value))
      && (c.enabled && |c.cache| < c.capacity ==>
            forall k :: k != key ==> (k in c'.cache <==> k in c.cache) && (k in c.cache ==> c'.cache[k] == c.cache[k]))
      && (c.enabled && |c.cache| >= c.capacity ==> c'.cache.Keys == {key})
  {
  }

  datatype Router = Router(statics: map<string, RouteMatch>, routes: seq<Route>, fast: FastCache, lru: Lru,
                           cacheEnabled: bool, useFast: bool)

  /** A new router in which these routes have been registered. */
  function WithRoutes(routes: seq<Route>): Router {
    Router(map[], routes, FastCache(map[], 100, true), New(10, 3600, 0), true, true)
  }

  /** What a lookup answers when no cache is involved. */
  function Resolve(eng: Engine, r: Router, verb: string, path: string): Option<RouteMatch> {
    var key := CacheKey(verb, path);
    if key in r.statics then Some(r.statics[key]) else Scan(eng, r.routes, verb, path)
  }

  /**
   The right answer to a lookup, said on the tables: the static entry under the key, or else the first route
   of the method whose pattern matches, with what the pattern captures; none exactly when there is neither.
   */
  ghost predicate RightAnswer(eng: Engine, r: Router, verb: string, path: string, found: Option<RouteMatch>) {
    if verb + ":" + path in r.statics then found == Some(r.statics[verb + ":" + path])
    else
      match found
      case None =>
        forall i :: 0 <= i < |r.routes| ==> !(r.routes[i].verb == verb && eng.matches(r.routes[i].handler.path, path))
      case Some(m) =>
        exists i :: 0 <= i < |r.routes| && FirstFor(eng, r.routes, verb, path, i) && Carries(m, eng, r.routes[i].handler, path)
  }

  /** The answer names the handler and its pattern, and has the values that the pattern captures from the path. */
  ghost predicate Carries(m: RouteMatch, eng: Engine, h: Handler, path: string) {
    m.handler == h && m.path == h.path && m.basePath == "" && m.params == eng.captures(h.path, path)
  }

  /** The route at `i` is of the method and matches, and no route before it does. */
  ghost predicate FirstFor(eng: Engine, routes: seq<Route>, verb: string, path: string, i: int)
    requires 0 <= i < |routes|
  {
    && routes[i].verb == verb && eng.matches(routes[i].handler.path, path)
    && forall j :: 0 <= j < i ==> !(routes[j].verb == verb && eng.matches(routes[j].handler.path, path))
  }

  lemma {:induction false} ScanExactly(eng: Engine, routes: seq<Route>, verb: string, path: string)
    ensures Scan(eng, routes, verb, path).None? <==>
      forall i :: 0 <= i < |routes| ==> !(routes[i].verb == verb && eng.matches(routes[i].handler.path, path))
    ensures forall i :: 0 <= i < |routes| && FirstFor(eng, routes, verb, path, i) ==>
      var h := routes[i].handler;
      Scan(eng, routes, verb, path) == Some(RouteMatch(h, eng.captures(h.path, path), h.path, ""))
    ensures Scan(eng, routes, verb, path).Some? ==> exists i :: 0 <= i < |routes| && FirstFor(eng, routes, verb, path, i)
  {
    if routes != [] {
      var rest := routes[1..];
      assert forall i :: 1 <= i < |routes| ==> routes[i] == rest[i - 1];
      if Hits(eng, routes[0], verb, path) {
        assert FirstFor(eng, routes, verb, path, 0);
      } else {
        ScanExactly(eng, rest, verb, path);
        forall i | 1 <= i < |routes| ensures FirstFor(eng, routes, verb, path, i) <==> FirstFor(eng, rest, verb, path, i - 1) {
        }
        if Scan(eng, rest, verb, path).Some? {
          var k :| 0 <= k < |rest| && FirstFor(eng, rest, verb, path, k);
          assert FirstFor(eng, routes, verb, path, k + 1);
        }
      }
    }
  }

  lemma ResolveExactly(eng: Engine, r: Router, verb: string, path: string)
    ensures RightAnswer(eng, r, verb, path, Resolve(eng, r, verb, path))
  {
    ScanExactly(eng, r.routes, verb, path);
  }

  lemma ResolveSame(eng: Engine, r: Router, r': Router, verb: string, path: string)
    requires r'.statics == r.statics && r'.routes == r.routes
    ensures Resolve(eng, r', verb, path) == Resolve(eng, r, verb, path)
  {
  }

  /** The caches are asked first; the LRU cache also counts the use. */
  function Cached(r: Router, key: string, now: int): (Router, Option<RouteMatch>) {
    if r.cacheEnabled && r.useFast then (r, FastGet(r.fast, key))
    else if r.cacheEnabled then
      var (lru, hit) := Got(r.lru, key, now);
      (r.(lru := lru), hit)
    else (r, None)
  }

  function Stored(r: Router, key: string, m: RouteMatch, now: int): Router {
    if !r.cacheEnabled then r
    else if r.useFast then r.(fast := FastPut(r.fast, key, m))
    else r.(lru := Put(r.lru, key, m, now))
  }

  function MatchRoute(eng: Engine, r: Router, verb: string, path: string, now: int): (Router, Option<RouteMatch>) {
    var key := CacheKey(verb, path);
    if key in r.statics then (r, Some(r.statics[key]))
    else
      var (r1, hit) := Cached(r, key, now);
      if hit.Some? then (r1, hit)
      else
        match Scan(eng, r1.routes, verb, path)
        case None => (r1, None)
        case Some(m) => (Stored(r1, key, m, now), Some(m))
  }

  /** Whatever is stored under the key of a lookup with an admitted method is what the scan answers to it. */
  ghost predicate Truthful(eng: Engine, ok: string -> bool, routes: seq<Route>, key: string, m: RouteMatch) {
    forall verb, path :: ok(verb) && CacheKey(verb, path) == key ==> Scan(eng, routes, verb, path) == Some(m)
  }

  ghost predicate Sound(eng: Engine, ok: string -> bool, r: Router, clock: int) {
    && (forall key :: key in r.fast.cache ==> Truthful(eng, ok, r.routes, key, r.fast.cache[key]))
    && (forall e :: e in r.lru.entries ==> Truthful(eng, ok, r.routes, e.key, e.value))
    && Ordered(r.lru.entries, clock)
  }

  /** Lookups with admitted methods that share a key are answered alike, unless the key is static. */
  ghost predicate Agree(eng: Engine, ok: string -> bool, r: Router) {
    forall verb, path, verb', path' ::
      ok(verb) && ok(verb') && CacheKey(verb, path) == CacheKey(verb', path')
      && CacheKey(verb, path) !in r.statics && Scan(eng, r.routes, verb, path).Some?
      ==> Scan(eng, r.routes, verb', path') == Scan(eng, r.routes, verb, path)
  }

  /** That is always so for methods without a colon. */
  lemma PlainAgree(eng: Engine, r: Router)
    ensures Agree(eng, Plain, r)
  {
    forall verb, path, verb', path' | Plain(verb) && Plain(verb') && CacheKey(verb, path) == CacheKey(verb', path')
      ensures verb == verb' && path == path'
    {
      KeyInjective(verb, path, verb', path');
    }
  }

  lemma CachedSound(eng: Engine, ok: string -> bool, r: Router, verb: string, path: string, clock: int, now: int)
    requires Sound(eng, ok, r, clock) && clock <= now && ok(verb)
    ensures var (r1, hit) := Cached(r, CacheKey(verb, path), now);
      && Sound(eng, ok, r1, now) && r1 == r.(lru := r1.lru)
      && (hit.Some? ==> hit == Scan(eng, r.routes, verb, path))
  {
    var key := CacheKey(verb, path);
    assert Ordered(r.lru.entries, now);
    if r.cacheEnabled && !r.useFast {
      var (lru, hit) := Got(r.lru, key, now);
      GotOrdered(r.lru, key, now);
      forall e | e in lru.entries ensures Truthful(eng, ok, r.routes, e.key, e.value) {
        GotMembers(r.lru, key, now, e);
      }
      if hit.Some? {
        HitIsFresh(r.lru, key, now);
      }
    }
  }

  lemma StoredSound(eng: Engine, ok: string -> bool, r: Router, key: string, m: RouteMatch, now: int)
    requires Sound(eng, ok, r, now) && Truthful(eng, ok, r.routes, key, m)
    ensures Sound(eng, ok, Stored(r, key, m, now), now)
  {
    if r.cacheEnabled && !r.useFast {
      PutOrdered(r.lru, key, m, now);
      forall e | e in Put(r.lru, key, m, now).entries ensures Truthful(eng, ok, r.routes, e.key, e.value) {
        PutMembers(r.lru, key, m, now, e);
      }
    }
  }

  /** A lookup through the caches answers what the uncached resolver answers, and keeps the caches true. */
  lemma MatchIsResolve(eng: Engine, ok: string -> bool, r: Router, verb: string, path: string, clock: int, now: int)
    requires Sound(eng, ok, r, clock) && Agree(eng, ok, r) && clock <= now && ok(verb)
    ensures var (r', answer) := MatchRoute(eng, r, verb, path, now);
      answer == Resolve(eng, r, verb, path) && Sound(eng, ok, r', now)
      && r'.statics == r.statics && r'.routes == r.routes
  {
    var key := CacheKey(verb, path);
    assert Ordered(r.lru.entries, now);
    CachedSound(eng, ok, r, verb, path, clock, now);
    var r1 := Cached(r, key, now).0;
    var scan := Scan(eng, r.routes, verb, path);
    if key !in r.statics && scan.Some? {
      assert Truthful(eng, ok, r.routes, key, scan.value);
      StoredSound(eng, ok, r1, key, scan.value, now);
    }
  }

  /** A dynamic answer is kept in the cache that is in use; the other cache, or both when caching is off, stay as they were. */
  lemma LookupStores(eng: Engine, r: Router, verb: string, path: string, now: int)
    requires Ordered(r.lru.entries, now) && CacheKey(verb, path) !in r.statics
    ensures var key := CacheKey(verb, path);
      var (r', answer) := MatchRoute(eng, r, verb, path, now);
      && (!r.cacheEnabled ==> r' == r)
      && (r.useFast ==> r'.lru == r.lru) && (!r.useFast ==> r'.fast == r.fast)
      && (r.cacheEnabled && r.useFast && r.fast.enabled && answer.Some? ==>
            key in r'.fast.cache && r'.fast.cache[key] == answer.value)
      && (r.cacheEnabled && !r.useFast && answer.Some? ==> StandsFirst(r'.lru, key, answer.value, now))
  {
    var key := CacheKey(verb, path);
    if r.cacheEnabled && !r.useFast {
      var (lru, hit) := Got(r.lru, key, now);
      GotOrdered(r.lru, key, now);
      if hit.Some? {
        HitStandsFirst(r.lru, key, now);
      } else if Scan(eng, r.routes, verb, path).Some? {
        PutFirst(lru, key, Scan(eng, r.routes, verb, path).value, now);
      }
    }
  }

  lemma PutFirst(c: Lru, key: string, m: RouteMatch, now: int)
    requires Ordered(c.entries, now)
    ensures StandsFirst(Put(c, key, m, now), key, m, now)
  {
  }

  ghost predicate StandsFirst(c: Lru, key: string, m: RouteMatch, now: int) {
    c.entries != [] && c.entries[0].key == key && c.entries[0].value == m && c.entries[0].lastAccess == now
  }

  // ---------- Serving runs ----------

  datatype Op =
    | Lookup(verb: string, path: string)
    | AddStatic(verb: string, handler: Handler)
    | ClearCache
    | ForceCleanup
    | SetCacheEnabled(on: bool)
    | SetUseFast(on: bool)
    | SetFastEnabled(on: bool)
    | SetTtl(ttl: int)
    | SetInterval(interval: int)

  datatype Event = Event(op: Op, now: int)

  function StaticMatch(h: Handler): RouteMatch {
    RouteMatch(h, map[], h.path, "")
  }

  function Serve(eng: Engine, r: Router, ev: Event): Router {
    match ev.op
    case Lookup(verb, path) => MatchRoute(eng, r, verb, path, ev.now).0
    case AddStatic(verb, h) => r.(statics := r.statics[CacheKey(verb, h.path) := StaticMatch(h)])
    case ClearCache => r.(lru := Cleared(r.lru, ev.now))
    case ForceCleanup => r.(lru := Cleaned(r.lru, ev.now))
    case SetCacheEnabled(on) => r.(cacheEnabled := on, lru := if on then r.lru else Cleared(r.lru, ev.now))
    case SetUseFast(on) => r.(useFast := on)
    case SetFastEnabled(on) => r.(fast := r.fast.(enabled := on, cache := if on then r.fast.cache else map[]))
    case SetTtl(ttl) => r.(lru := r.lru.(ttl := ttl))
    case SetInterval(interval) => r.(lru := r.lru.(interval := interval))
  }

  function ServeAll(eng: Engine, r: Router, evs: seq<Event>): Router {
    if evs == [] then r else Serve(eng, ServeAll(eng, r, evs[..|evs| - 1]), evs[|evs| - 1])
  }

  /** The clock never goes back, and lookups use admitted methods. */
  ghost predicate Proper(ok: string -> bool, start: int, evs: seq<Event>) {
    && (forall i :: 0 <= i < |evs| ==> start <= evs[i].now && (evs[i].op.Lookup? ==> ok(evs[i].op.verb)))
    && (forall i, j :: 0 <= i < j < |evs| ==> evs[i].now <= evs[j].now)
  }

  lemma ServeSound(eng: Engine, ok: string -> bool, r: Router, ev: Event, clock: int)
    requires Sound(eng, ok, r, clock) && Agree(eng, ok, r) && clock <= ev.now && (ev.op.Lookup? ==> ok(ev.op.verb))
    ensures var r' := Serve(eng, r, ev);
      Sound(eng, ok, r', ev.now) && Agree(eng, ok, r') && r'.routes == r.routes
  {
    assert Ordered(r.lru.entries, ev.now);
    match ev.op
    case Lookup(verb, path) => MatchIsResolve(eng, ok, r, verb, path, clock, ev.now);
    case ForceCleanup =>
      CleanedOrdered(r.lru, ev.now);
      forall e | e in Cleaned(r.lru, ev.now).entries ensures Truthful(eng, ok, r.routes, e.key, e.value) {
        CleanedMembers(r.lru, ev.now, e);
      }
    case _ =>
  }

  function LastTime(start: int, evs: seq<Event>): int {
    if evs == [] then start else evs[|evs| - 1].now
  }

  lemma {:induction false} ServeAllSound(eng: Engine, ok: string -> bool, r: Router, evs: seq<Event>, start: int)
    requires r.fast.cache == map[] && r.lru.entries == [] && Agree(eng, ok, r) && Proper(ok, start, evs)
    ensures var r' := ServeAll(eng, r, evs);
      Sound(eng, ok, r', LastTime(start, evs)) && Agree(eng, ok, r') && r'.routes == r.routes
  {
    if evs != [] {
      var init := evs[..|evs| - 1];
      ServeAllSound(eng, ok, r, init, start);
      ServeSound(eng, ok, ServeAll(eng, r, init), evs[|evs| - 1], LastTime(start, init));
    }
  }

  /** A lookup after a run answers what the uncached resolver would answer at that moment. */
  ghost predicate RightAfter(eng: Engine, r: Router, evs: seq<Event>, verb: string, path: string, now: int) {
    var r' := ServeAll(eng, r, evs);
    MatchRoute(eng, r', verb, path, now).1 == Resolve(eng, r', verb, path)
  }

  /**
   Once the dynamic routes are in place and the caches empty, every lookup of every run of lookups, static
   registrations, clears, cleanups and cache switches is right, if methods contain no colon.
   */
  lemma CachesAreInvisible(eng: Engine, r: Router, evs: seq<Event>, start: int, verb: string, path: string, now: int)
    requires r.fast.cache == map[] && r.lru.entries == [] && Plain(verb)
    requires Proper(Plain, start, evs) && LastTime(start, evs) <= now
    ensures RightAfter(eng, r, evs, verb, path, now)
  {
    PlainAgree(eng, r);
    ServeAllSound(eng, Plain, r, evs, start);
    MatchIsResolve(eng, Plain, ServeAll(eng, r, evs), verb, path, LastTime(start, evs), now);
  }

  /** A run after which a lookup finds what a lookup with the same key has stored. */
  function ServedOnce(verb: string, path: string): seq<Event> {
    [Event.Event(SetCacheEnabled(true), 0), Event.Event(SetUseFast(true), 0), Event.Event(SetFastEnabled(true), 0),
     Event.Event(Lookup(verb, path), 0)]
  }

  lemma ServedOnceStores(eng: Engine, r: Router, verb: string, path: string)
    requires r.fast.cache == map[] && r.lru.entries == []
    requires CacheKey(verb, path) !in r.statics && Scan(eng, r.routes, verb, path).Some?
    ensures var r' := ServeAll(eng, r, ServedOnce(verb, path));
      && r'.statics == r.statics && r'.routes == r.routes && r'.cacheEnabled && r'.useFast
      && FastGet(r'.fast, CacheKey(verb, path)) == Scan(eng, r.routes, verb, path)
  {
    var evs := ServedOnce(verb, path);
    var r1 := Serve(eng, r, evs[0]);
    var r2 := Serve(eng, r1, evs[1]);
    var r3 := Serve(eng, r2, evs[2]);
    assert evs[..3] == [evs[0], evs[1], evs[2]] && evs[..3][..2] == [evs[0], evs[1]] && evs[..3][..2][..1] == [evs[0]];
    assert ServeAll(eng, r, []) == r;
    assert ServeAll(eng, r, [evs[0]]) == r1;
    assert ServeAll(eng, r, evs[..3][..2]) == r2;
    assert ServeAll(eng, r, evs[..3]) == r3;
    assert ServeAll(eng, r, evs) == Serve(eng, r3, evs[3]);
  }

  /**
   For whatever set of methods: all lookups of all runs are right if and only if lookups that share a key
   are answered alike by the tables.
   */
  lemma CachesAreInvisibleIff(eng: Engine, ok: string -> bool, r: Router)
    requires r.fast.cache == map[] && r.lru.entries == []
    ensures Agree(eng, ok, r) <==>
      forall evs, start, verb, path, now :: Proper(ok, start, evs) && ok(verb) && LastTime(start, evs) <= now ==>
        RightAfter(eng, r, evs, verb, path, now)
  {
    if Agree(eng, ok, r) {
      forall evs, start, verb, path, now | Proper(ok, start, evs) && ok(verb) && LastTime(start, evs) <= now
        ensures RightAfter(eng, r, evs, verb, path, now)
      {
        ServeAllSound(eng, ok, r, evs, start);
        MatchIsResolve(eng, ok, ServeAll(eng, r, evs), verb, path, LastTime(start, evs), now);
      }
    } else {
      var verb, path, verb', path' :| ok(verb) && ok(verb') && CacheKey(verb, path) == CacheKey(verb', path')
        && CacheKey(verb, path) !in r.statics && Scan(eng, r.routes, verb, path).Some?
        && Scan(eng, r.routes, verb', path') != Scan(eng, r.routes, verb, path);
      ServedOnceStores(eng, r, verb, path);
      assert Proper(ok, 0, ServedOnce(verb, path)) && LastTime(0, ServedOnce(verb, path)) == 0;
      assert !RightAfter(eng, r, ServedOnce(verb, path), verb', path', 0);
    }
  }

  /** With a colon in the method, a lookup can get the answer of another one with the same key. */
  lemma KeyCollision(eng: Engine, h: Handler)
    requires eng.matches(h.path, "b:c")
    ensures var r := WithRoutes([RouteFor("A", h)]);
      var served := ServeAll(eng, r, ServedOnce("A", "b:c"));
      && MatchRoute(eng, served, "A:b", "c", 0).1 == Some(MatchOf(eng, h, "b:c"))
      && Resolve(eng, served, "A:b", "c") == None
  {
    hide Complexity;
    var r := WithRoutes([RouteFor("A", h)]);
    assert "A:b" != "A" && CacheKey("A", "b:c") == CacheKey("A:b", "c");
    assert Scan(eng, r.routes[1..], "A:b", "c") == None;
    ServedOnceStores(eng, r, "A", "b:c");
  }

  // ---------- Route order ----------

  function Score(route: Route): int { route.complexity }

  function HitsFor(eng: Engine, verb: string, path: string): Route -> bool {
    (route: Route) => Hits(eng, route, verb, path)
  }

  function Yields(eng: Engine, path: string): Route -> RouteMatch {
    (route: Route) => MatchOf(eng, route.handler, path)
  }

  lemma {:induction false} ScanIsFirst(eng: Engine, routes: seq<Route>, verb: string, path: string)
    ensures var first := FirstHit(routes, HitsFor(eng, verb, path));
      Scan(eng, routes, verb, path) == if first.Some? then Some(Yields(eng, path)(first.value)) else None
  {
    if routes != [] && !Hits(eng, routes[0], verb, path) {
      ScanIsFirst(eng, routes[1..], verb, path);
    }
  }

  /** With sorted routes a dynamic answer comes from a matching route of least complexity. */
  lemma ScanIsLeast(eng: Engine, routes: seq<Route>, verb: string, path: string)
    requires SortedBy(routes, Score)
    ensures Scan(eng, routes, verb, path).None? <==> forall x :: x in routes ==> !Hits(eng, x, verb, path)
    ensures Scan(eng, routes, verb, path).Some? ==>
      exists x :: Least(multiset(routes), HitsFor(eng, verb, path), Score, x)
        && Scan(eng, routes, verb, path) == Some(MatchOf(eng, x.handler, path))
  {
    ScanIsFirst(eng, routes, verb, path);
    FirstIsLeast(routes, HitsFor(eng, verb, path), Score);
  }

  // ---------- Changing the table after serving ----------

  lemma {:induction false} ScanAppend(eng: Engine, routes: seq<Route>, late: Route, verb: string, path: string)
    requires Scan(eng, routes, verb, path).Some?
    ensures Scan(eng, routes + [late], verb, path) == Scan(eng, routes, verb, path)
  {
    assert (routes + [late])[0] == routes[0] && (routes + [late])[1..] == routes[1..] + [late];
    if !Hits(eng, routes[0], verb, path) {
      ScanAppend(eng, routes[1..], late, verb, path);
    }
  }

  /** With sorting off, a dynamic route registered after serving goes last and leaves all caches true. */
  lemma AppendKeepsSound(eng: Engine, ok: string -> bool, r: Router, late: Route, clock: int)
    requires Sound(eng, ok, r, clock)
    ensures Sound(eng, ok, r.(routes := r.routes + [late]), clock)
  {
    forall key, m, verb, path | Truthful(eng, ok, r.routes, key, m) && ok(verb) && CacheKey(verb, path) == key
      ensures Scan(eng, r.routes + [late], verb, path) == Some(m)
    {
      ScanAppend(eng, r.routes, late, verb, path);
    }
    forall key, m | Truthful(eng, ok, r.routes, key, m) ensures Truthful(eng, ok, r.routes + [late], key, m) {
    }
  }

  /** A lookup after the table has become `routes` is right. */
  ghost predicate RightWith(eng: Engine, r: Router, routes: seq<Route>, verb: string, path: string, now: int) {
    var r' := r.(routes := routes);
    MatchRoute(eng, r', verb, path, now).1 == Resolve(eng, r', verb, path)
  }

  /** That is so unless the caches hold another answer than the new table gives. */
  lemma RightWithIff(eng: Engine, r: Router, routes: seq<Route>, verb: string, path: string, now: int)
    ensures var key := CacheKey(verb, path);
      var hit := Cached(r, key, now).1;
      RightWith(eng, r, routes, verb, path, now) <==>
        key in r.statics || hit.None? || hit == Scan(eng, routes, verb, path)
  {
  }

  /** Every matching route of least complexity in `bag` yields what the caches hold for the lookup, if anything. */
  ghost predicate LeastIsCached(eng: Engine, r: Router, bag: multiset<Route>, verb: string, path: string, now: int) {
    var key := CacheKey(verb, path);
    var hit := Cached(r, key, now).1;
    key in r.statics || hit.None?
    || forall x :: Least(bag, HitsFor(eng, verb, path), Score, x) ==> MatchOf(eng, x.handler, path) == hit.value
  }

  /**
   A sort of the table after serving, possibly with further routes in it, leaves a lookup right in every
   order it may give to ties, if and only if all least matches are what is cached.
   */
  lemma SortSeenIff(eng: Engine, ok: string -> bool, r: Router, more: seq<Route>, verb: string, path: string, clock: int, now: int)
    requires Sound(eng, ok, r, clock) && clock <= now && ok(verb)
    ensures (forall routes :: Arranged(routes, multiset(r.routes + more), Score) ==>
              RightWith(eng, r, routes, verb, path, now))
            <==> LeastIsCached(eng, r, multiset(r.routes + more), verb, path, now)
  {
    var key, all := CacheKey(verb, path), r.routes + more;
    var hit, hits := Cached(r, key, now).1, HitsFor(eng, verb, path);
    CachedSound(eng, ok, r, verb, path, clock, now);
    ScanIsFirst(eng, r.routes, verb, path);
    hide Cached, Scan, Sound, RightWith;
    forall routes ensures RightWith(eng, r, routes, verb, path, now) <==>
      key in r.statics || hit.None? || hit == Scan(eng, routes, verb, path)
    {
      RightWithIff(eng, r, routes, verb, path, now);
    }
    if key !in r.statics && hit.Some? {
      assert hits(FirstHit(r.routes, hits).value) && FirstHit(r.routes, hits).value in all;
      AlwaysYieldsIff(all, hits, Score, Yields(eng, path), hit.value);
      forall routes ensures hit == Scan(eng, routes, verb, path) <==>
        FirstHit(routes, hits).Some? && Yields(eng, path)(FirstHit(routes, hits).value) == hit.value
      {
        ScanIsFirst(eng, routes, verb, path);
      }
    }
  }

  /** Registering a dynamic route after serving, with sorting on. */
  lemma LateRouteSeenIff(eng: Engine, ok: string -> bool, r: Router, late: Route, verb: string, path: string, clock: int, now: int)
    requires Sound(eng, ok, r, clock) && clock <= now && ok(verb)
    ensures (forall routes :: Arranged(routes, multiset(r.routes) + multiset{late}, Score) ==>
              RightWith(eng, r, routes, verb, path, now))
            <==> LeastIsCached(eng, r, multiset(r.routes) + multiset{late}, verb, path, now)
  {
    assert multiset(r.routes + [late]) == multiset(r.routes) + multiset{late};
    SortSeenIff(eng, ok, r, [late], verb, path, clock, now);
  }

  /** Switching sorting on after serving. */
  lemma ResortSeenIff(eng: Engine, ok: string -> bool, r: Router, verb: string, path: string, clock: int, now: int)
    requires Sound(eng, ok, r, clock) && clock <= now && ok(verb)
    ensures (forall routes :: Arranged(routes, multiset(r.routes), Score) ==> RightWith(eng, r, routes, verb, path, now))
            <==> LeastIsCached(eng, r, multiset(r.routes), verb, path, now)
  {
    assert r.routes + [] == r.routes;
    SortSeenIff(eng, ok, r, [], verb, path, clock, now);
  }

  lemma {:induction false} CountOfNone(s: string, c: char)
    requires c !in s
    ensures CountOf(s, c) == 0
  {
    if s != "" {
      CountOfNone(s[1..], c);
    }
  }

  lemma {:induction false} CountAllNone(s: string, cs: string)
    requires forall c :: c in cs ==> c !in s
    ensures CountAll(s, cs) == 0
  {
    if cs != "" {
      CountOfNone(s, cs[0]);
      CountAllNone(s, cs[1..]);
    }
  }

  lemma NoSpecials()
    ensures CountAll("/:id", "?+.()[]{}^$|") == 0
  {
    CountAllNone("/:id", "?+.()[]{}^$|");
  }

  lemma SimpleScore()
    ensures Complexity("/:id") == 12
  {
    NoSpecials();
    hide CountAll;
    assert CountOf("/:id", ':') == 1 && CountOf("/:id", '*') == 0 && CountOf("/:id", '/') == 1;
  }

  lemma ComplexScore()
    ensures Complexity("/:a.:b") >= 22
  {
    hide CountAll;
    assert CountOf("/:a.:b", ':') == 2 && CountOf("/:a.:b", '/') == 1;
  }

  lemma Scores()
    ensures Complexity("/:id") < Complexity("/:a.:b")
  {
    SimpleScore();
    ComplexScore();
  }

  /** In every order of two matching routes of different complexity the simpler one answers. */
  lemma SimplerAnswers(eng: Engine, complex: Route, simple: Route, routes: seq<Route>, verb: string, path: string)
    requires Hits(eng, complex, verb, path) && Hits(eng, simple, verb, path) && Score(simple) < Score(complex)
    requires Arranged(routes, multiset{complex, simple}, Score)
    ensures Scan(eng, routes, verb, path) == Some(MatchOf(eng, simple.handler, path))
  {
    assert simple in multiset(routes);
    ScanIsLeast(eng, routes, verb, path);
    assert HitsFor(eng, verb, path)(simple);
  }

  /**
   Paths such as "/x.y" match both of these patterns. If the simpler one is registered after a lookup has
   been served by the other, the lookup goes on being answered by the other, whatever the sort does.
   */
  lemma LateRouteIsNotSeen(eng: Engine, a: Handler, b: Handler, verb: string, path: string)
    requires a.path == "/:a.:b" && b.path == "/:id" && eng.matches(a.path, path) && eng.matches(b.path, path)
    ensures var served := MatchRoute(eng, WithRoutes([RouteFor(verb, a)]), verb, path, 0).0;
      forall routes :: Arranged(routes, multiset(served.routes) + multiset{RouteFor(verb, b)}, Score) ==>
        var late := served.(routes := routes);
        && MatchRoute(eng, late, verb, path, 0).1 == Some(MatchOf(eng, a, path))
        && Resolve(eng, late, verb, path) == Some(MatchOf(eng, b, path))
  {
    var complex, simple := RouteFor(verb, a), RouteFor(verb, b);
    Scores();
    hide Complexity, CountOf, CountAll;
    var served := MatchRoute(eng, WithRoutes([complex]), verb, path, 0).0;
    forall routes | Arranged(routes, multiset(served.routes) + multiset{simple}, Score)
      ensures Scan(eng, routes, verb, path) == Some(MatchOf(eng, b, path))
    {
      assert multiset([complex]) + multiset{simple} == multiset{complex, simple};
      SimplerAnswers(eng, complex, simple, routes, verb, path);
    }
  }

  /** The same patterns registered in this order with sorting off: switching it on after a lookup is not seen. */
  lemma ResortIsNotSeen(eng: Engine, a: Handler, b: Handler, verb: string, path: string)
    requires a.path == "/:a.:b" && b.path == "/:id" && eng.matches(a.path, path) && eng.matches(b.path, path)
    ensures var served := MatchRoute(eng, WithRoutes([RouteFor(verb, a), RouteFor(verb, b)]), verb, path, 0).0;
      forall routes :: Arranged(routes, multiset(served.routes), Score) ==>
        var late := served.(routes := routes);
        && MatchRoute(eng, late, verb, path, 0).1 == Some(MatchOf(eng, a, path))
        && Resolve(eng, late, verb, path) == Some(MatchOf(eng, b, path))
  {
    var complex, simple := RouteFor(verb, a), RouteFor(verb, b);
    Scores();
    hide Complexity, CountOf, CountAll;
    var served := MatchRoute(eng, WithRoutes([complex, simple]), verb, path, 0).0;
    forall routes | Arranged(routes, multiset(served.routes), Score)
      ensures Scan(eng, routes, verb, path) == Some(MatchOf(eng, b, path))
    {
      assert multiset([complex, simple]) == multiset{complex, simple};
      SimplerAnswers(eng, complex, simple, routes, verb, path);
    }
  }

  /**
   Even a late route that does not match can change the answer: the sort may exchange two matching routes of
   the same complexity, of which the first is cached.
   */
  lemma TiesMayMove(eng: Engine, a: Handler, b: Handler, late: Handler, verb: string, path: string)
    requires a != b && Complexity(a.path) == Complexity(b.path)
    requires eng.matches(a.path, path) && eng.matches(b.path, path) && !eng.matches(late.path, path)
    ensures var served := MatchRoute(eng, WithRoutes([RouteFor(verb, a), RouteFor(verb, b)]), verb, path, 0).0;
      exists routes :: Arranged(routes, multiset(served.routes) + multiset{RouteFor(verb, late)}, Score)
        && !RightWith(eng, served, routes, verb, path, 0)
  {
    hide Complexity;
    var ra, rb, rl := RouteFor(verb, a), RouteFor(verb, b), RouteFor(verb, late);
    var served := MatchRoute(eng, WithRoutes([ra, rb]), verb, path, 0).0;
    assert served.routes == [ra, rb] && FastGet(served.fast, CacheKey(verb, path)) == Some(MatchOf(eng, a, path));
    var all := [ra, rb, rl];
    assert multiset(all) == multiset(served.routes) + multiset{rl};
    assert Least(multiset(all), HitsFor(eng, verb, path), Score, rb);
    var routes := LeastCanBeFirst(all, HitsFor(eng, verb, path), Score, rb);
    ScanIsFirst(eng, routes, verb, path);
  }
}
