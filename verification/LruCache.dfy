/**
 The route cache in memory: a hash map from keys to the nodes of a doubly linked list kept in
 order of use. `list` names the nodes from head to tail; every operation does to it what the
 plain list of entries in LruSpec prescribes.
 */
module LruCache {
  import opened Wrappers
  import opened RouteTypes
  import opened LruSpec

  class CacheNode {
    var key: string
    var value: RouteMatch
    var prev: CacheNode?
    var next: CacheNode?
    var createdAt: int
    var lastAccess: int

    constructor (key: string, value: RouteMatch, now: int)
      ensures this.key == key && this.value == value && createdAt == now && lastAccess == now
      ensures prev == null && next == null
    {
      this.key, this.value, createdAt, lastAccess := key, value, now, now;
      prev, next := null, null;
    }
  }

  /** The node at position `i`, or null beyond either end. */
  function At(list: seq<CacheNode>, i: int): CacheNode? {
    if 0 <= i < |list| then list[i] else null
  }

  /** The node at position `i` points to its two neighbours. */
  ghost predicate Hooked(list: seq<CacheNode>, i: int)
    requires 0 <= i < |list|
    reads list[i]
  {
    list[i].prev == At(list, i - 1) && list[i].next == At(list, i + 1)
  }

  ghost predicate Distinct(list: seq<CacheNode>) {
    forall i, j :: 0 <= i < j < |list| ==> list[i] != list[j]
  }

  ghost predicate AllHooked(list: seq<CacheNode>)
    reads list
  {
    forall i {:trigger Hooked(list, i)} :: 0 <= i < |list| ==> Hooked(list, i)
  }

  ghost function EntryOf(n: CacheNode): Entry
    reads n
  {
    Entry(n.key, n.value, n.createdAt, n.lastAccess)
  }

  ghost function Entries(list: seq<CacheNode>): seq<Entry>
    reads list
  {
    seq(|list|, i requires 0 <= i < |list| reads list => EntryOf(list[i]))
  }

  lemma WithoutNode(list: seq<CacheNode>, k: int, x: CacheNode)
    requires Distinct(list) && 0 <= k < |list|
    ensures x in Without(list, k) <==> x in list && x != list[k]
  {
    var rest := Without(list, k);
    if x in list && x != list[k] {
      var i :| 0 <= i < |list| && list[i] == x;
      assert rest[if i < k then i else i - 1] == x;
    }
    if x in rest {
      var i :| 0 <= i < |rest| && rest[i] == x;
      assert list[if i < k then i else i + 1] == x;
    }
  }

  lemma MovedNodes(list: seq<CacheNode>, k: int)
    requires Distinct(list) && 0 <= k < |list|
    ensures (set n | n in [list[k]] + Without(list, k)) == (set n | n in list)
  {
    forall n ensures n in [list[k]] + Without(list, k) <==> n in list {
      WithoutNode(list, k, n);
    }
  }

  lemma WithoutSubset(list: seq<CacheNode>, k: int)
    requires 0 <= k < |list|
    ensures (set n | n in Without(list, k)) <= (set n | n in list)
  {
  }

  /**
   Every listed node is in the map under the key of its entry, and the map holds no more
   nodes than the list.
   */
  ghost predicate MapsTo(cache: map<string, CacheNode>, list: seq<CacheNode>, es: seq<Entry>) {
    && |cache.Keys| == |list| == |es|
    && (forall i :: 0 <= i < |es| ==> es[i].key in cache && cache[es[i].key] == list[i])
  }

  lemma MapsToUnique(cache: map<string, CacheNode>, list: seq<CacheNode>, es: seq<Entry>)
    requires MapsTo(cache, list, es) && Distinct(list)
    ensures UniqueKeys(es)
  {
  }

  lemma MapsToWithout(cache: map<string, CacheNode>, list: seq<CacheNode>, es: seq<Entry>, k: int)
    requires MapsTo(cache, list, es) && Distinct(list) && 0 <= k < |list|
    ensures MapsTo(cache - {es[k].key}, Without(list, k), Without(es, k))
  {
    MapsToUnique(cache, list, es);
    assert (cache - {es[k].key}).Keys == cache.Keys - {es[k].key};
  }

  lemma MapsToTouched(cache: map<string, CacheNode>, list: seq<CacheNode>, es: seq<Entry>, k: int, value: RouteMatch, now: int)
    requires MapsTo(cache, list, es) && 0 <= k < |list|
    ensures MapsTo(cache, [list[k]] + Without(list, k), Touched(es, k, value, now))
  {
  }

  lemma MapsToAdded(cache: map<string, CacheNode>, list: seq<CacheNode>, es: seq<Entry>, node: CacheNode, e: Entry)
    requires MapsTo(cache, list, es) && e.key !in cache
    ensures MapsTo(cache[e.key := node], [node] + list, [e] + es)
  {
    var cache', list', es' := cache[e.key := node], [node] + list, [e] + es;
    assert cache'.Keys == cache.Keys + {e.key};
    forall i | 0 <= i < |es'| ensures es'[i].key in cache' && cache'[es'[i].key] == list'[i] {
      assert i > 0 ==> es'[i] == es[i - 1] && es[i - 1].key in cache && list'[i] == list[i - 1];
    }
  }

  lemma NotMapped(cache: map<string, CacheNode>, list: seq<CacheNode>, es: seq<Entry>, key: string)
    requires MapsTo(cache, list, es) && key !in cache
    ensures IndexOf(es, key) == -1
  {
  }

  ghost function KeySet(es: seq<Entry>): (keys: set<string>)
    ensures forall i :: 0 <= i < |es| ==> es[i].key in keys
    ensures forall key :: key in keys ==> exists i :: 0 <= i < |es| && es[i].key == key
  {
    if es == [] then {} else KeySet(es[..|es| - 1]) + {es[|es| - 1].key}
  }

  lemma {:induction false} KeySetSize(es: seq<Entry>)
    requires UniqueKeys(es)
    ensures |KeySet(es)| == |es|
  {
    if es != [] {
      KeySetSize(es[..|es| - 1]);
    }
  }

  lemma SubsetOfSameSize<T>(a: set<T>, b: set<T>, x: T)
    requires a <= b && |a| == |b| && x in b
    ensures x in a
  {
    if x !in a {
      var rest := b - {x};
      assert a <= rest;
      SubsetSize(a, rest);
    }
  }

  lemma {:induction false} SubsetSize<T>(a: set<T>, b: set<T>)
    requires a <= b
    ensures |a| <= |b|
  {
    if a != {} {
      var x :| x in a;
      SubsetSize(a - {x}, b - {x});
    }
  }

  /** So every key of the map is the key of some listed node: the two hold the same nodes. */
  lemma MapsToFind(cache: map<string, CacheNode>, list: seq<CacheNode>, es: seq<Entry>, key: string) returns (k: int)
    requires MapsTo(cache, list, es) && Distinct(list) && key in cache
    ensures 0 <= k < |list| && es[k].key == key && cache[key] == list[k]
  {
    MapsToUnique(cache, list, es);
    KeySetSize(es);
    SubsetOfSameSize(KeySet(es), cache.Keys, key);
    k :| 0 <= k < |es| && es[k].key == key;
  }

  ghost function NamedKeys(keys: seq<string>): set<string> {
    set k | k in keys && k != ""
  }

  lemma NamedKeysNext(keys: seq<string>, i: int)
    requires 0 <= i < |keys|
    ensures NamedKeys(keys[..i + 1]) == if keys[i] == "" then NamedKeys(keys[..i]) else NamedKeys(keys[..i]) + {keys[i]}
  {
    assert keys[..i + 1] == keys[..i] + [keys[i]];
  }

  class Cache {
    var capacity: int
    var size: int
    var cache: map<string, CacheNode>
    var head: CacheNode?
    var tail: CacheNode?
    var ttl: int
    var lastCleanup: int
    var interval: int
    ghost var list: seq<CacheNode>

    ghost function Nodes(): set<CacheNode>
      reads this
    {
      set n | n in list
    }

    /** Head, tail, forward and backward links all describe `list`. */
    ghost predicate Chain()
      reads this`head, this`tail, this`list, list
    {
      Distinct(list) && AllHooked(list) && head == At(list, 0) && tail == At(list, |list| - 1)
    }

    ghost predicate Valid()
      reads this, list
    {
      Chain() && MapsTo(cache, list, Entries(list)) && size == |list|
    }

    ghost function View(): Lru
      reads this, list
    {
      Lru(Entries(list), capacity, ttl, lastCleanup, interval)
    }

    constructor (capacity: int, ttl: int, now: int)
      ensures Valid() && list == [] && View() == New(capacity, ttl, now)
      ensures this.capacity == capacity && this.ttl == ttl && lastCleanup == now && interval == 300
    {
      this.capacity, this.ttl, lastCleanup, interval := capacity, ttl, now, 300;
      size, cache, head, tail, list := 0, map[], null, null, [];
    }

    // ---------- Links ----------

    method AddToFront(node: CacheNode)
      requires Chain() && node !in list
      modifies this`head, this`tail, this`list, node`prev, node`next, Nodes()`prev
      ensures Chain() && list == [node] + old(list)
      ensures Entries(list) == [EntryOf(node)] + old(Entries(list)) && EntryOf(node) == old(EntryOf(node))
    {
      node.next := head;
      node.prev := null;
      assert head != null ==> Hooked(list, 0);
      if head != null {
        head.prev := node;
      }
      head := node;
      if tail == null {
        tail := node;
      }
      list := [node] + list;
      forall i | 0 <= i < |list| ensures Hooked(list, i) {
        assert i > 0 ==> old(Hooked(list, i - 1));
      }
    }

    /** Takes a node other than the head out of the chain, as move_to_front does. */
    method Unhook(node: CacheNode, ghost k: int)
      requires Chain() && 0 < k < |list| && list[k] == node
      modifies this`tail, this`list, Nodes()`prev, Nodes()`next
      ensures Chain() && list == Without(old(list), k) && head == old(head)
    {
      assert Hooked(list, k);
      if node.prev != null {
        node.prev.next := node.next;
      }
      if node.next != null {
        node.next.prev := node.prev;
      }
      if node == tail {
        tail := node.prev;
      }
      list := Without(list, k);
      forall i | 0 <= i < |list| ensures Hooked(list, i) {
        assert old(Hooked(list, if i < k then i else i + 1));
      }
    }

    method MoveToFront(node: CacheNode, ghost k: int)
      requires Chain() && 0 <= k < |list| && list[k] == node
      modifies this`head, this`tail, this`list, Nodes()`prev, Nodes()`next
      ensures Chain() && list == [node] + Without(old(list), k)
      ensures Entries(list) == [old(Entries(list))[k]] + Without(old(Entries(list)), k)
    {
      if node == head {
        return;
      }
      ghost var es := Entries(list);
      Unhook(node, k);
      assert Entries(list) == Without(es, k) && EntryOf(node) == es[k];
      AddToFront(node);
    }

    /** Takes any node out of the chain, as remove_node does, and clears its links. */
    method Detach(node: CacheNode, ghost k: int)
      requires Chain() && 0 <= k < |list| && list[k] == node
      modifies this`head, this`tail, this`list, Nodes()`prev, Nodes()`next
      ensures Chain() && list == Without(old(list), k)
    {
      assert Hooked(list, k);
      if node.prev != null {
        node.prev.next := node.next;
      } else {
        head := node.next;
      }
      if node.next != null {
        node.next.prev := node.prev;
      } else {
        tail := node.prev;
      }
      node.prev := null;
      node.next := null;
      list := Without(list, k);
      forall i | 0 <= i < |list| ensures Hooked(list, i) {
        assert old(Hooked(list, if i < k then i else i + 1));
      }
    }

    // ---------- Removal and cleanup ----------

    /** Takes a node out of the chain and marks it as removed. */
    method Retire(node: CacheNode, ghost k: int)
      requires Chain() && 0 <= k < |list| && list[k] == node
      modifies this`head, this`tail, this`list, Nodes()`prev, Nodes()`next, node`key
      ensures Chain() && list == Without(old(list), k) && Entries(list) == Without(old(Entries(list)), k)
    {
      ghost var es := Entries(list);
      WithoutNode(list, k, node);
      Detach(node, k);
      assert Entries(list) == Without(es, k);
      node.key := "";
    }

    /** remove_node past its guard. */
    method RemoveKeyed(node: CacheNode, ghost k: int)
      requires Valid() && 0 <= k < |list| && list[k] == node
      modifies this`size, this`cache, this`head, this`tail, this`list, Nodes()`prev, Nodes()`next, node`key
      ensures Valid() && Entries(list) == Without(old(Entries(list)), k) && cache.Keys <= old(cache).Keys
      ensures list == Without(old(list), k)
    {
      MapsToWithout(cache, list, Entries(list), k);
      cache := cache - {node.key};
      Retire(node, k);
      if size > 0 {
        size := size - 1;
      }
    }

    method RemoveNode(node: CacheNode, ghost k: int)
      requires Valid() && 0 <= k < |list| && list[k] == node
      modifies this`size, this`cache, this`head, this`tail, this`list, Nodes()`prev, Nodes()`next, node`key
      ensures Valid() && Entries(list) == Removed(old(Entries(list)), k) && cache.Keys <= old(cache).Keys
      ensures list == if old(node.key) == "" then old(list) else Without(old(list), k)
    {
      if node.key == "" {
        return;
      }
      RemoveKeyed(node, k);
    }

    method IsExpired(node: CacheNode, now: int) returns (expired: bool)
      requires Valid() && node in list
      ensures expired == View().Expired(EntryOf(node), now)
    {
      if ttl <= 0 {
        return false;
      }
      return now - node.lastAccess > ttl;
    }

    /** The keys that a cleanup collects before it starts removing. */
    method ExpiredKeys(now: int) returns (keys: seq<string>)
      requires Valid()
      ensures forall e :: e in Entries(list) ==> (e.key in keys <==> View().Expired(e, now))
    {
      keys := [];
      var todo := cache.Keys;
      while todo != {}
        invariant todo <= cache.Keys
        invariant forall i :: 0 <= i < |list| && list[i].key in keys ==> list[i].key !in todo
        invariant forall i :: 0 <= i < |list| && list[i].key !in todo ==>
          (list[i].key in keys <==> View().Expired(EntryOf(list[i]), now))
        decreases |todo|
      {
        var key :| key in todo;
        todo := todo - {key};
        ghost var k := MapsToFind(cache, list, Entries(list), key);
        MapsToUnique(cache, list, Entries(list));
        var expired := IsExpired(cache[key], now);
        if expired {
          keys := keys + [key];
        }
      }
      forall e | e in Entries(list) ensures e.key in keys <==> View().Expired(e, now) {
        var k :| 0 <= k < |Entries(list)| && Entries(list)[k] == e;
        assert e == EntryOf(list[k]);
      }
    }

    /** Removes the node stored under `key`, if there is one. */
    method RemoveKey(key: string, ghost es: seq<Entry>, ghost done: set<string>)
      requires Valid() && UniqueKeys(es) && Entries(list) == Dropped(es, done)
      modifies this`size, this`cache, this`head, this`tail, this`list, Nodes()`prev, Nodes()`next, Nodes()`key
      ensures Valid() && Entries(list) == Dropped(es, if key == "" then done else done + {key})
      ensures Nodes() <= old(Nodes())
    {
      if key in cache {
        ghost var k := MapsToFind(cache, list, Entries(list), key);
        ghost var was := list;
        if key != "" {
          DroppedOneMore(es, done, k);
        }
        RemoveNode(cache[key], k);
        WithoutSubset(was, k);
      } else {
        forall e | e in Dropped(es, done) ensures e.key != key {
          var i :| 0 <= i < |list| && Entries(list)[i] == e;
          assert Entries(list)[i].key in cache;
        }
        DroppedGone(es, done, key);
      }
    }

    method RemoveKeys(keys: seq<string>, ghost es: seq<Entry>)
      requires Valid() && UniqueKeys(es) && Entries(list) == es
      modifies this`size, this`cache, this`head, this`tail, this`list, Nodes()`prev, Nodes()`next, Nodes()`key
      ensures Valid() && Entries(list) == Dropped(es, NamedKeys(keys))
      ensures Nodes() <= old(Nodes())
    {
      DroppedNothing(es);
      assert NamedKeys(keys[..0]) == {};
      for i := 0 to |keys|
        invariant Valid() && Entries(list) == Dropped(es, NamedKeys(keys[..i]))
        invariant Nodes() <= old(Nodes())
      {
        NamedKeysNext(keys, i);
        RemoveKey(keys[i], es, NamedKeys(keys[..i]));
      }
      assert keys[..|keys|] == keys;
    }

    method CleanupExpiredEntries(now: int)
      requires Valid()
      modifies this`size, this`cache, this`head, this`tail, this`list, Nodes()`prev, Nodes()`next, Nodes()`key
      ensures Valid() && View() == Cleaned(old(View()), now)
      ensures Nodes() <= old(Nodes())
    {
      if ttl <= 0 {
        return;
      }
      MapsToUnique(cache, list, Entries(list));
      var keys := ExpiredKeys(now);
      DroppedIsLive(View(), Entries(list), now, NamedKeys(keys));
      RemoveKeys(keys, Entries(list));
    }

    method CleanupExpiredIfNeeded(now: int)
      requires Valid()
      modifies this`size, this`cache, this`head, this`tail, this`list, this`lastCleanup, Nodes()`prev, Nodes()`next, Nodes()`key
      ensures Valid() && View() == CleanedIfNeeded(old(View()), now)
      ensures Nodes() <= old(Nodes())
    {
      hide MapsTo, Cleaned;
      if now - lastCleanup > interval {
        CleanupExpiredEntries(now);
        lastCleanup := now;
      }
    }

    // ---------- Operations ----------

    /** Gives the node at position `k` a new value and access time. */
    method Stamp(node: CacheNode, ghost k: int, value: RouteMatch, now: int)
      requires Chain() && 0 <= k < |list| && list[k] == node
      modifies node`value, node`lastAccess
      ensures Chain()
      ensures Entries(list) == old(Entries(list))[k := old(Entries(list))[k].(value := value, lastAccess := now)]
    {
      node.value := value;
      node.lastAccess := now;
      assert forall i {:trigger Hooked(list, i)} :: 0 <= i < |list| ==> old(Hooked(list, i)) ==> Hooked(list, i);
    }

    /** Touches the node at position `k`. */
    method Touch(node: CacheNode, ghost k: int, value: RouteMatch, now: int)
      requires Valid() && 0 <= k < |list| && list[k] == node
      modifies this`head, this`tail, this`list, Nodes()`prev, Nodes()`next, node`value, node`lastAccess
      ensures Valid() && Entries(list) == Touched(old(Entries(list)), k, value, now)
      ensures Nodes() == old(Nodes())
    {
      ghost var es := Entries(list);
      MapsToTouched(cache, list, es, k, value, now);
      MovedNodes(list, k);
      Stamp(node, k, value, now);
      MoveToFront(node, k);
      hide MapsTo, Chain;
      assert Entries(list) == Touched(es, k, value, now);
    }

    /** A lookup that has found a node. */
    method Visit(node: CacheNode, ghost k: int, now: int) returns (found: Option<RouteMatch>)
      requires Valid() && 0 <= k < |list| && list[k] == node
      modifies this, Nodes()
      ensures Valid() && Nodes() <= old(Nodes())
      ensures var c := old(View()); var e := c.entries[k];
        (View(), found) == if c.Expired(e, now) then (c.(entries := Removed(c.entries, k)), None)
                           else (c.(entries := Touched(c.entries, k, e.value, now)), Some(e.value))
    {
      var expired := IsExpired(node, now);
      if expired {
        WithoutSubset(list, k);
        RemoveNode(node, k);
        return None;
      }
      Touch(node, k, node.value, now);
      return Some(node.value);
    }

    /** Get past its cleanup. */
    method Lookup(key: string, now: int) returns (found: Option<RouteMatch>)
      requires Valid()
      modifies this, Nodes()
      ensures Valid() && (View(), found) == Looked(old(View()), key, now)
      ensures Nodes() <= old(Nodes())
    {
      if key in cache {
        ghost var k := MapsToFind(cache, list, Entries(list), key);
        MapsToUnique(cache, list, Entries(list));
        IndexOfUnique(Entries(list), k);
        found := Visit(cache[key], k, now);
      } else {
        NotMapped(cache, list, Entries(list), key);
        found := None;
      }
    }

    method Get(key: string, now: int) returns (found: Option<RouteMatch>)
      requires Valid()
      modifies this, Nodes()
      ensures Valid() && (View(), found) == Got(old(View()), key, now)
      ensures Nodes() <= old(Nodes())
    {
      CleanupExpiredIfNeeded(now);
      found := Lookup(key, now);
    }

    method RemoveTail()
      requires Valid()
      modifies this`size, this`cache, this`head, this`tail, this`list, Nodes()`prev, Nodes()`next, Nodes()`key
      ensures Valid() && cache.Keys <= old(cache).Keys && Nodes() <= old(Nodes())
      ensures Entries(list) == if old(list) == [] then [] else Removed(old(Entries(list)), |old(list)| - 1)
    {
      if tail == null {
        return;
      }
      WithoutSubset(list, |list| - 1);
      RemoveNode(tail, |list| - 1);
    }

    /** Put past its cleanup, for a key that is not stored yet. */
    method Add(key: string, value: RouteMatch, now: int)
      requires Valid() && key !in cache
      modifies this, Nodes()
      ensures Valid() && View() == old(View()).(entries := [Entry(key, value, now, now)] + Evicted(old(View())))
      ensures fresh(Nodes() - old(Nodes()))
    {
      hide MapsTo, Chain;
      if size >= capacity {
        RemoveTail();
      }
      Append(key, value, now);
    }

    method Append(key: string, value: RouteMatch, now: int)
      requires Valid() && key !in cache
      modifies this`size, this`cache, this`head, this`tail, this`list, Nodes()`prev
      ensures Valid() && Entries(list) == [Entry(key, value, now, now)] + old(Entries(list))
      ensures fresh(Nodes() - old(Nodes()))
    {
      var node := new CacheNode(key, value, now);
      Enter(node);
    }

    /** Puts a new node into the map and in front of the chain. */
    method Enter(node: CacheNode)
      requires Valid() && node.key !in cache && node !in list
      modifies this`size, this`cache, this`head, this`tail, this`list, Nodes()`prev, node`prev, node`next
      ensures Valid() && list == [node] + old(list)
      ensures Entries(list) == [old(EntryOf(node))] + old(Entries(list))
    {
      MapsToAdded(cache, list, Entries(list), node, EntryOf(node));
      hide MapsTo, Chain;
      cache := cache[node.key := node];
      AddToFront(node);
      size := size + 1;
    }

    method Put(key: string, value: RouteMatch, now: int)
      requires Valid()
      modifies this, Nodes()
      ensures Valid() && View() == LruSpec.Put(old(View()), key, value, now)
      ensures fresh(Nodes() - old(Nodes()))
    {
      CleanupExpiredIfNeeded(now);
      hide Evicted, CleanedIfNeeded;
      if key in cache {
        ghost var k := MapsToFind(cache, list, Entries(list), key);
        MapsToUnique(cache, list, Entries(list));
        IndexOfUnique(Entries(list), k);
        Touch(cache[key], k, value, now);
        return;
      }
      NotMapped(cache, list, Entries(list), key);
      Add(key, value, now);
    }

    /** Forgets all nodes, cutting the links of each. */
    method Clear(now: int)
      requires Valid()
      modifies this, Nodes()
      ensures Valid() && list == [] && View() == Cleared(old(View()), now)
      ensures cache == map[] && lastCleanup == now && capacity == old(capacity) && ttl == old(ttl) && interval == old(interval)
    {
      var current := head;
      ghost var i := 0;
      forall j | 0 <= j < |list| ensures list[j].next == At(list, j + 1) {
        assert Hooked(list, j);
      }
      while current != null
        invariant 0 <= i <= |list| && current == At(list, i)
        invariant Distinct(list) && list == old(list) && View().(entries := []) == old(View()).(entries := [])
        invariant forall j {:trigger list[j].next} :: i <= j < |list| ==> list[j].next == At(list, j + 1)
        decreases |list| - i
      {
        var next := current.next;
        current.prev := null;
        current.next := null;
        current.key := "";
        current, i := next, i + 1;
      }
      cache, head, tail, size, lastCleanup, list := map[], null, null, 0, now, [];
    }

    method SetTtl(ttl: int)
      requires Valid()
      modifies this`ttl
      ensures Valid() && View() == old(View()).(ttl := ttl)
    {
      this.ttl := ttl;
    }

    method SetCleanupInterval(interval: int)
      requires Valid()
      modifies this`interval
      ensures Valid() && View() == old(View()).(interval := interval)
    {
      this.interval := interval;
    }

    /** The nodes met by following `next` from the head: all of them, or more than the size says. */
    ghost predicate Walk(chain: seq<CacheNode>)
      reads this, chain
    {
      && head == At(chain, 0)
      && (forall i {:trigger chain[i].next} :: 0 <= i < |chain| - 1 ==> chain[i].next == chain[i + 1])
      && (chain != [] && chain[|chain| - 1].next != null ==> |chain| > size)
    }

    /** Size, map, ends and chain agree. */
    ghost predicate Consistent(chain: seq<CacheNode>)
      reads this, chain
    {
      if size == 0 then head == null && tail == null && cache == map[]
      else
        && head != null && tail != null && |cache| == size
        && |chain| == size && (chain != [] ==> chain[|chain| - 1].next == null)
    }

    /** The integrity check, on any state whatever; it accepts every reachable one. */
    method IsHealthy(ghost chain: seq<CacheNode>) returns (healthy: bool)
      requires Walk(chain)
      ensures healthy <==> Consistent(chain)
      ensures Valid() && chain == list ==> healthy
    {
      ValidIsConsistent(chain);
      if size == 0 {
        return head == null && tail == null && |cache| == 0;
      }
      if head == null || tail == null {
        return false;
      }
      if |cache| != size {
        return false;
      }
      hide Valid;
      var count := 0;
      var current := head;
      while current != null
        invariant 0 <= count <= |chain| && count <= size
        invariant current == if count < |chain| then chain[count] else null
        invariant count == |chain| ==> chain[|chain| - 1].next == null
        decreases |chain| - count
      {
        count := count + 1;
        if count > size {
          return false;
        }
        current := current.next;
      }
      return count == size;
    }

    lemma ValidIsConsistent(chain: seq<CacheNode>)
      ensures Valid() && chain == list ==> Consistent(chain)
    {
      if Valid() && list != [] {
        assert Hooked(list, |list| - 1);
      }
    }

    /** Such a walk always exists in a consistent state: the list itself. */
    lemma ListIsWalk()
      requires Valid()
      ensures Walk(list)
    {
      forall i | 0 <= i < |list| ensures list[i].next == At(list, i + 1) {
        assert Hooked(list, i);
      }
    }
  }
}
