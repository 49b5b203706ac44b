/**
 The menu forest: items that name their parent by id are arranged into trees, starting from
 the items whose parent is 0. The table may contain cycles and parents that do not exist.
 */
module MenuTree {
  datatype Item = Item(id: int, parentId: int, name: string)

  datatype Menu = Menu(item: Item, children: seq<Menu>)

  // ---------- Chains ----------

  /** The id reached by a chain that sets out from `start`. */
  function End(start: int, trail: seq<int>): int {
    if trail == [] then start else trail[|trail| - 1]
  }

  ghost predicate Has(table: seq<Item>, id: int, parentId: int) {
    exists i :: 0 <= i < |table| && table[i].id == id && table[i].parentId == parentId
  }

  /** A chain of items downwards from `start`, each the parent of the next. */
  ghost predicate Trail(table: seq<Item>, start: int, trail: seq<int>) {
    trail != [] ==>
      Trail(table, start, trail[..|trail| - 1]) && Has(table, End(start, trail), End(start, trail[..|trail| - 1]))
  }

  /** No chain from `start` is longer than the table, so that descending from it ends. */
  ghost predicate Grounded(table: seq<Item>, start: int) {
    forall trail :: Trail(table, start, trail) ==> |trail| <= |table|
  }

  lemma {:induction false} TrailPrefix(table: seq<Item>, start: int, trail: seq<int>, k: int)
    requires Trail(table, start, trail) && 0 <= k <= |trail|
    ensures Trail(table, start, trail[..k])
  {
    if k == |trail| {
      assert trail[..k] == trail;
    } else {
      TrailPrefix(table, start, trail[..|trail| - 1], k);
      assert trail[..|trail| - 1][..k] == trail[..k];
    }
  }

  lemma {:induction false} TrailInTable(table: seq<Item>, start: int, trail: seq<int>, k: int) returns (i: int)
    requires Trail(table, start, trail) && 0 <= k < |trail|
    ensures 0 <= i < |table| && table[i].id == trail[k]
  {
    TrailPrefix(table, start, trail, k + 1);
    assert Has(table, End(start, trail[..k + 1]), End(start, trail[..k + 1][..k]));
    i :| 0 <= i < |table| && table[i].id == trail[k];
  }

  /** Distinct values that all occur in `pool` are no more than its elements. */
  lemma {:induction false} DistinctFit(xs: seq<int>, pool: seq<int>)
    requires forall i, j :: 0 <= i < j < |xs| ==> xs[i] != xs[j]
    requires forall i :: 0 <= i < |xs| ==> xs[i] in pool
    ensures |xs| <= |pool|
  {
    if xs != [] {
      var x := xs[|xs| - 1];
      var k :| 0 <= k < |pool| && pool[k] == x;
      var rest, init := pool[..k] + pool[k + 1..], xs[..|xs| - 1];
      forall i | 0 <= i < |init| ensures init[i] in rest {
        var m :| 0 <= m < |pool| && pool[m] == init[i];
        assert m != k;
        assert rest[if m < k then m else m - 1] == init[i];
      }
      DistinctFit(init, rest);
    }
  }

  function Ids(table: seq<Item>): seq<int> {
    seq(|table|, i requires 0 <= i < |table| => table[i].id)
  }

  lemma TrailExtend(table: seq<Item>, start: int, trail: seq<int>, i: int)
    requires Trail(table, start, trail) && 0 <= i < |table| && table[i].parentId == End(start, trail)
    ensures Trail(table, start, trail + [table[i].id]) && End(start, trail + [table[i].id]) == table[i].id
    ensures Grounded(table, start) ==> |trail| + 1 <= |table|
  {
    var next := trail + [table[i].id];
    assert next[..|next| - 1] == trail;
    assert Has(table, table[i].id, End(start, trail));
  }

  /** A chain that meets an id twice can go round once more. */
  lemma {:induction false} TrailPump(table: seq<Item>, start: int, trail: seq<int>, i: int, j: int, k: int)
    requires Trail(table, start, trail) && 0 <= i < j < |trail| && trail[i] == trail[j] && i < k <= |trail|
    ensures Trail(table, start, trail[..j + 1] + trail[i + 1..k])
  {
    var longer := trail[..j + 1] + trail[i + 1..k];
    if k == i + 1 {
      TrailPrefix(table, start, trail, j + 1);
      assert longer == trail[..j + 1];
    } else {
      TrailPump(table, start, trail, i, j, k - 1);
      assert longer[..|longer| - 1] == trail[..j + 1] + trail[i + 1..k - 1];
      TrailStep(table, start, trail, k);
      assert longer[|longer| - 1] == trail[k - 1];
      assert End(start, longer[..|longer| - 1]) == trail[k - 2];
    }
  }

  /** One link of a chain, anywhere in it. */
  lemma TrailStep(table: seq<Item>, start: int, trail: seq<int>, k: int)
    requires Trail(table, start, trail) && 1 < k <= |trail|
    ensures Has(table, trail[k - 1], trail[k - 2])
  {
    TrailPrefix(table, start, trail, k);
    var prefix := trail[..k];
    assert prefix[..k - 1] == trail[..k - 1];
    assert End(start, prefix) == trail[k - 1] && End(start, prefix[..k - 1]) == trail[k - 2];
  }

  /** A chain longer than the table meets some id twice. */
  lemma TrailRepeats(table: seq<Item>, start: int, trail: seq<int>)
    requires Trail(table, start, trail) && |trail| > |table|
    ensures exists i, j :: 0 <= i < j < |trail| && trail[i] == trail[j]
  {
    forall k | 0 <= k < |trail| ensures trail[k] in Ids(table) {
      var i := TrailInTable(table, start, trail, k);
      assert Ids(table)[i] == trail[k];
    }
    if forall i, j :: 0 <= i < j < |trail| ==> trail[i] != trail[j] {
      DistinctFit(trail, Ids(table));
    }
  }

  /** Otherwise chains of any length exist: descending never ends. */
  lemma {:induction false} Endless(table: seq<Item>, start: int, n: nat) returns (trail: seq<int>)
    requires !Grounded(table, start)
    ensures Trail(table, start, trail) && |trail| > |table| && |trail| >= n
  {
    if n == 0 {
      trail :| Trail(table, start, trail) && |trail| > |table|;
    } else {
      var shorter := Endless(table, start, n - 1);
      TrailRepeats(table, start, shorter);
      var i, j :| 0 <= i < j < |shorter| && shorter[i] == shorter[j];
      TrailPump(table, start, shorter, i, j, |shorter|);
      trail := shorter[..j + 1] + shorter[i + 1..|shorter|];
    }
  }

  // ---------- Building the forest ----------

  /** The trees below the end of `trail` whose root items stand at position `i` of the table or later. */
  ghost function Forest(table: seq<Item>, start: int, trail: seq<int>, i: int): seq<Menu>
    requires Grounded(table, start) && Trail(table, start, trail) && 0 <= i <= |table|
    decreases |table| - |trail|, |table| - i
  {
    if i == |table| then []
    else if table[i].parentId != End(start, trail) then Forest(table, start, trail, i + 1)
    else
      TrailExtend(table, start, trail, i);
      [Menu(table[i], Forest(table, start, trail + [table[i].id], 0))] + Forest(table, start, trail, i + 1)
  }

  lemma ForestNext(table: seq<Item>, start: int, trail: seq<int>, i: int)
    requires Grounded(table, start) && Trail(table, start, trail) && 0 <= i < |table|
    ensures table[i].parentId != End(start, trail) ==>
      Forest(table, start, trail, i) == Forest(table, start, trail, i + 1)
    ensures table[i].parentId == End(start, trail) ==>
      var next := trail + [table[i].id];
      && Trail(table, start, next) && End(start, next) == table[i].id && |trail| < |table|
      && Forest(table, start, trail, i) ==
         [Menu(table[i], Forest(table, start, next, 0))] + Forest(table, start, trail, i + 1)
  {
    if table[i].parentId == End(start, trail) {
      TrailExtend(table, start, trail, i);
    }
  }

  /** get_children, called for the end of a chain from `start`; it ends because all such chains do. */
  method GetChildren(parentId: int, table: seq<Item>, ghost start: int, ghost trail: seq<int>)
    returns (children: seq<Menu>)
    requires Grounded(table, start) && Trail(table, start, trail) && End(start, trail) == parentId
    ensures children == Forest(table, start, trail, 0)
    decreases |table| - |trail|
  {
    children := [];
    for i := 0 to |table|
      invariant children + Forest(table, start, trail, i) == Forest(table, start, trail, 0)
    {
      ForestNext(table, start, trail, i);
      hide Forest, Grounded;
      if table[i].parentId == parentId {
        var below := GetChildren(table[i].id, table, start, trail + [table[i].id]);
        children := children + [Menu(table[i], below)];
      }
    }
  }

  /** The map from ids to items, in the order in which the ids were first seen. */
  function Upsert(table: seq<Item>, item: Item): seq<Item> {
    var k := Position(table, item.id);
    if k < 0 then table + [item] else table[k := item]
  }

  function Position(table: seq<Item>, id: int): (k: int)
    ensures -1 <= k < |table|
    ensures k >= 0 ==> table[k].id == id
    ensures k == -1 ==> forall j :: 0 <= j < |table| ==> table[j].id != id
  {
    if table == [] then -1
    else if table[|table| - 1].id == id then |table| - 1
    else Position(table[..|table| - 1], id)
  }

  function Table(menus: seq<Item>): seq<Item> {
    if menus == [] then [] else Upsert(Table(menus[..|menus| - 1]), menus[|menus| - 1])
  }

  /** The recursion ends below every root item; by `Endless` it does not otherwise. */
  ghost predicate Ends(menus: seq<Item>) {
    forall i :: 0 <= i < |menus| && menus[i].parentId == 0 ==> Grounded(Table(menus), menus[i].id)
  }

  /** The root items from position `i` on, each with the forest below it. */
  ghost function Roots(menus: seq<Item>, i: int): seq<Menu>
    requires Ends(menus) && 0 <= i <= |menus|
    decreases |menus| - i
  {
    if i == |menus| then []
    else if menus[i].parentId != 0 then Roots(menus, i + 1)
    else [Menu(menus[i], Forest(Table(menus), menus[i].id, [], 0))] + Roots(menus, i + 1)
  }

  method BuildMenuTree(menus: seq<Item>) returns (roots: seq<Menu>)
    requires Ends(menus)
    ensures roots == Roots(menus, 0)
  {
    var table := BuildMap(menus);
    hide Table, Forest, Grounded;
    roots := [];
    for i := 0 to |menus|
      invariant roots + Roots(menus, i) == Roots(menus, 0)
    {
      if menus[i].parentId == 0 {
        var below := GetChildren(menus[i].id, table, menus[i].id, []);
        roots := roots + [Menu(menus[i], below)];
      }
    }
  }

  /** The first loop of build_menu_tree. */
  method BuildMap(menus: seq<Item>) returns (table: seq<Item>)
    ensures table == Table(menus)
  {
    table := [];
    for i := 0 to |menus|
      invariant table == Table(menus[..i])
    {
      assert menus[..i + 1][..i] == menus[..i];
      table := Upsert(table, menus[i]);
    }
    assert menus[..|menus|] == menus;
  }

  // ---------- Distinct ids ----------

  /** Ids are distinct and none of them is 0, the parent of root items. */
  ghost predicate WellNumbered(menus: seq<Item>) {
    && (forall i :: 0 <= i < |menus| ==> menus[i].id != 0)
    && (forall i, j :: 0 <= i < j < |menus| ==> menus[i].id != menus[j].id)
  }

  /** The parent chain of the item leads up to 0. */
  ghost predicate Reachable(menus: seq<Item>, id: int) {
    exists trail :: trail != [] && Trail(menus, 0, trail) && End(0, trail) == id
  }

  lemma ParentUnique(menus: seq<Item>, id: int, p: int, p': int)
    requires WellNumbered(menus) && Has(menus, id, p) && Has(menus, id, p')
    ensures p == p' && id != 0
  {
    var i :| 0 <= i < |menus| && menus[i].id == id && menus[i].parentId == p;
    var j :| 0 <= j < |menus| && menus[j].id == id && menus[j].parentId == p';
    assert i == j;
  }

  /** There is at most one chain from the top to an item, even in a table with cycles. */
  lemma {:induction false} TrailUnique(menus: seq<Item>, a: seq<int>, b: seq<int>)
    requires WellNumbered(menus) && Trail(menus, 0, a) && Trail(menus, 0, b) && End(0, a) == End(0, b)
    ensures a == b
  {
    if a != [] {
      ParentUnique(menus, End(0, a), End(0, a[..|a| - 1]), End(0, a[..|a| - 1]));
    }
    if b != [] {
      ParentUnique(menus, End(0, b), End(0, b[..|b| - 1]), End(0, b[..|b| - 1]));
    }
    if a != [] && b != [] {
      var a', b' := a[..|a| - 1], b[..|b| - 1];
      ParentUnique(menus, End(0, a), End(0, a'), End(0, b'));
      TrailUnique(menus, a', b');
      assert a == a' + [End(0, a)] && b == b' + [End(0, b)];
    }
  }

  /** A chain never meets the same id twice. */
  lemma TrailDistinct(menus: seq<Item>, trail: seq<int>, i: int, j: int)
    requires WellNumbered(menus) && Trail(menus, 0, trail) && 0 <= i < j < |trail|
    ensures trail[i] != trail[j]
  {
    if trail[i] == trail[j] {
      TrailPrefix(menus, 0, trail, i + 1);
      TrailPrefix(menus, 0, trail, j + 1);
      TrailUnique(menus, trail[..i + 1], trail[..j + 1]);
    }
  }

  /** So no chain is longer than the table: descending it must end. */
  lemma TrailLength(menus: seq<Item>, trail: seq<int>)
    requires WellNumbered(menus) && Trail(menus, 0, trail)
    ensures |trail| <= |menus|
  {
    forall i, j | 0 <= i < j < |trail| ensures trail[i] != trail[j] {
      TrailDistinct(menus, trail, i, j);
    }
    forall k | 0 <= k < |trail| ensures trail[k] in Ids(menus) {
      var i := TrailInTable(menus, 0, trail, k);
      assert Ids(menus)[i] == trail[k];
    }
    DistinctFit(trail, Ids(menus));
  }

  // ---------- What the forest contains ----------

  /** How often an item with the given id occurs in the forest. */
  function Count(f: seq<Menu>, id: int): nat {
    if f == [] then 0
    else (if f[0].item.id == id then 1 else 0) + Count(f[0].children, id) + Count(f[1..], id)
  }

  lemma CountCons(m: Menu, f: seq<Menu>, id: int)
    ensures Count([m] + f, id) == (if m.item.id == id then 1 else 0) + Count(m.children, id) + Count(f, id)
  {
    assert ([m] + f)[1..] == f;
  }

  /** Every node is an item of the table and hangs below its own parent. */
  ghost predicate Placed(menus: seq<Item>, f: seq<Menu>, parentId: int) {
    f != [] ==>
      && f[0].item in menus && f[0].item.parentId == parentId
      && Placed(menus, f[0].children, f[0].item.id) && Placed(menus, f[1..], parentId)
  }

  lemma {:induction false} ForestPlaced(menus: seq<Item>, trail: seq<int>, i: int)
    requires WellNumbered(menus) && Trail(menus, 0, trail) && Grounded(menus, 0) && 0 <= i <= |menus|
    ensures Placed(menus, Forest(menus, 0, trail, i), End(0, trail))
    decreases |menus| - |trail|, |menus| - i
  {
    if i < |menus| {
      hide Forest, Grounded, Trail;
      ForestPlaced(menus, trail, i + 1);
      ForestNext(menus, 0, trail, i);
      if menus[i].parentId == End(0, trail) {
        ForestPlaced(menus, trail + [menus[i].id], 0);
        var f := Forest(menus, 0, trail, i);
        assert f[1..] == Forest(menus, 0, trail, i + 1);
      }
    }
  }

  lemma PosOf(menus: seq<Item>, i: int)
    requires WellNumbered(menus) && 0 <= i < |menus|
    ensures Position(menus, menus[i].id) == i
  {
  }

  /** At depth `d` the chain `t` has come to `end` and goes on to the item at position `i` or later. */
  ghost predicate Continues(menus: seq<Item>, d: int, end: int, i: int, t: seq<int>) {
    0 <= d < |t| && (d == 0 || t[d - 1] == end) && Position(menus, t[d]) >= i
  }

  /** One link of a chain. */
  lemma TrailLink(menus: seq<Item>, t: seq<int>, d: int)
    requires Trail(menus, 0, t) && 0 <= d < |t|
    ensures Has(menus, t[d], if d == 0 then 0 else t[d - 1]) && Position(menus, t[d]) >= 0
  {
    TrailPrefix(menus, 0, t, d + 1);
    var u := t[..d + 1];
    assert End(0, u) == t[d] && End(0, u[..d]) == if d == 0 then 0 else t[d - 1];
  }

  /** The item on the chain at depth `d` hangs below the one before it. */
  lemma SameDepth(menus: seq<Item>, t: seq<int>, d: int, i: int)
    requires WellNumbered(menus) && Trail(menus, 0, t) && 0 <= d < |t| && 0 <= i < |menus| && menus[i].id == t[d]
    ensures menus[i].parentId == if d == 0 then 0 else t[d - 1]
    ensures Position(menus, t[d]) == i
  {
    TrailLink(menus, t, d);
    PosOf(menus, i);
    assert Has(menus, menus[i].id, menus[i].parentId);
    ParentUnique(menus, t[d], menus[i].parentId, if d == 0 then 0 else t[d - 1]);
  }

  lemma ContinuesSkip(menus: seq<Item>, d: int, end: int, i: int, t: seq<int>)
    requires WellNumbered(menus) && Trail(menus, 0, t) && 0 <= i < |menus| && menus[i].parentId != end
    requires d == 0 ==> end == 0
    ensures Continues(menus, d, end, i, t) == Continues(menus, d, end, i + 1, t)
  {
    if Continues(menus, d, end, i, t) && Position(menus, t[d]) == i {
      SameDepth(menus, t, d, i);
    }
  }

  /** The three places where the end of `t` may occur are mutually exclusive. */
  lemma CountStep(menus: seq<Item>, d: int, end: int, i: int, t: seq<int>)
    requires WellNumbered(menus) && Trail(menus, 0, t) && t != [] && 0 <= d
    requires 0 <= i < |menus| && menus[i].parentId == end && (d == 0 ==> end == 0)
    requires menus[i].id == End(0, t) ==> |t| == d + 1
    ensures var here := if menus[i].id == End(0, t) then 1 else 0;
      var below := if Continues(menus, d + 1, menus[i].id, 0, t) then 1 else 0;
      var later := if Continues(menus, d, end, i + 1, t) then 1 else 0;
      here + below + later == if Continues(menus, d, end, i, t) then 1 else 0
  {
    PosOf(menus, i);
    if d < |t| && menus[i].id == t[d] {
      SameDepth(menus, t, d, i);
      if d + 1 < |t| {
        TrailLink(menus, t, d + 1);
      }
    }
  }

  /** The end of a chain occurs once in the forests along the chain, and nowhere else. */
  lemma {:induction false} CountReachable(menus: seq<Item>, trail: seq<int>, i: int, t: seq<int>)
    requires WellNumbered(menus) && Trail(menus, 0, trail) && Grounded(menus, 0) && 0 <= i <= |menus|
    requires Trail(menus, 0, t) && t != []
    ensures Count(Forest(menus, 0, trail, i), End(0, t)) == if Continues(menus, |trail|, End(0, trail), i, t) then 1 else 0
    decreases |menus| - |trail|, |menus| - i
  {
    if i == |menus| {
      assert Forest(menus, 0, trail, i) == [] && !Continues(menus, |trail|, End(0, trail), i, t);
    } else {
      hide Forest, Grounded, Trail, Count, Continues, WellNumbered;
      CountReachable(menus, trail, i + 1, t);
      ForestNext(menus, 0, trail, i);
      if menus[i].parentId == End(0, trail) {
        CountReachable(menus, trail + [menus[i].id], 0, t);
        CountHere(menus, trail, i, t);
      } else {
        ContinuesSkip(menus, |trail|, End(0, trail), i, t);
      }
    }
  }

  lemma CountHere(menus: seq<Item>, trail: seq<int>, i: int, t: seq<int>)
    requires WellNumbered(menus) && Grounded(menus, 0) && Trail(menus, 0, t) && t != []
    requires Trail(menus, 0, trail) && 0 <= i < |menus| && menus[i].parentId == End(0, trail)
    requires Trail(menus, 0, trail + [menus[i].id])
    requires Count(Forest(menus, 0, trail + [menus[i].id], 0), End(0, t)) ==
      if Continues(menus, |trail| + 1, menus[i].id, 0, t) then 1 else 0
    requires Count(Forest(menus, 0, trail, i + 1), End(0, t)) ==
      if Continues(menus, |trail|, End(0, trail), i + 1, t) then 1 else 0
    ensures Count(Forest(menus, 0, trail, i), End(0, t)) ==
      if Continues(menus, |trail|, End(0, trail), i, t) then 1 else 0
  {
    hide Forest, Grounded, Trail, Count, Continues, WellNumbered;
    var next := trail + [menus[i].id];
    ForestNext(menus, 0, trail, i);
    CountCons(Menu(menus[i], Forest(menus, 0, next, 0)), Forest(menus, 0, trail, i + 1), End(0, t));
    if menus[i].id == End(0, t) {
      TrailUnique(menus, next, t);
    }
    CountStep(menus, |trail|, End(0, trail), i, t);
  }

  lemma {:induction false} CountUnreachable(menus: seq<Item>, trail: seq<int>, i: int, id: int)
    requires WellNumbered(menus) && Trail(menus, 0, trail) && Grounded(menus, 0) && 0 <= i <= |menus|
    requires !Reachable(menus, id)
    ensures Count(Forest(menus, 0, trail, i), id) == 0
    decreases |menus| - |trail|, |menus| - i
  {
    if i < |menus| {
      hide Forest, Grounded, Trail, Count, WellNumbered;
      CountUnreachable(menus, trail, i + 1, id);
      ForestNext(menus, 0, trail, i);
      if menus[i].parentId == End(0, trail) {
        var next := trail + [menus[i].id];
        CountUnreachable(menus, next, 0, id);
        CountCons(Menu(menus[i], Forest(menus, 0, next, 0)), Forest(menus, 0, trail, i + 1), id);
        assert End(0, next) == menus[i].id;
      }
    }
  }

  lemma WellNumberedGrounded(menus: seq<Item>)
    requires WellNumbered(menus)
    ensures Grounded(menus, 0)
  {
    forall trail | Trail(menus, 0, trail) ensures |trail| <= |menus| {
      TrailLength(menus, trail);
    }
  }

  lemma TableNext(menus: seq<Item>, item: Item)
    ensures Table(menus + [item]) == Upsert(Table(menus), item)
  {
    assert (menus + [item])[..|menus|] == menus;
  }

  lemma UpsertNew(table: seq<Item>, item: Item)
    requires forall i :: 0 <= i < |table| ==> table[i].id != item.id
    ensures Upsert(table, item) == table + [item]
  {
    hide Position;
  }

  lemma WellNumberedInit(menus: seq<Item>)
    requires WellNumbered(menus) && menus != []
    ensures var init := menus[..|menus| - 1];
      WellNumbered(init) && forall i :: 0 <= i < |init| ==> init[i].id != menus[|menus| - 1].id
  {
  }

  /** With distinct ids the map holds all items in their order. */
  lemma {:induction false} TableIsList(menus: seq<Item>)
    requires WellNumbered(menus)
    ensures Table(menus) == menus
  {
    if menus == [] {
      assert Table(menus) == [];
    } else {
      hide Table, Upsert, WellNumbered;
      var init, last := menus[..|menus| - 1], menus[|menus| - 1];
      WellNumberedInit(menus);
      TableIsList(init);
      TableNext(init, last);
      UpsertNew(init, last);
      assert menus == init + [last];
    }
  }

  /** A chain from `x` continues a chain to `x`. */
  lemma {:induction false} TrailShift(menus: seq<Item>, x: int, trail: seq<int>)
    requires Trail(menus, 0, [x]) && Trail(menus, x, trail)
    ensures Trail(menus, 0, [x] + trail) && End(0, [x] + trail) == End(x, trail)
  {
    var all := [x] + trail;
    if trail == [] {
      assert all == [x];
    } else {
      TrailShift(menus, x, trail[..|trail| - 1]);
      assert all[..|all| - 1] == [x] + trail[..|trail| - 1];
    }
  }

  lemma RootGrounded(menus: seq<Item>, i: int)
    requires Grounded(menus, 0) && 0 <= i < |menus| && menus[i].parentId == 0
    ensures Trail(menus, 0, [menus[i].id]) && Grounded(menus, menus[i].id)
  {
    TrailExtend(menus, 0, [], i);
    assert [] + [menus[i].id] == [menus[i].id];
    hide Trail, Has;
    forall trail | Trail(menus, menus[i].id, trail) ensures |trail| <= |menus| {
      TrailShift(menus, menus[i].id, trail);
    }
  }

  lemma {:induction false} ForestShift(menus: seq<Item>, x: int, trail: seq<int>, i: int)
    requires Grounded(menus, 0) && Grounded(menus, x) && Trail(menus, 0, [x]) && Trail(menus, x, trail)
    requires 0 <= i <= |menus|
    ensures Trail(menus, 0, [x] + trail) && Forest(menus, 0, [x] + trail, i) == Forest(menus, x, trail, i)
    decreases |menus| - |trail|, |menus| - i
  {
    TrailShift(menus, x, trail);
    if i < |menus| {
      ForestShift(menus, x, trail, i + 1);
      ForestNext(menus, x, trail, i);
      ForestNext(menus, 0, [x] + trail, i);
      if menus[i].parentId == End(x, trail) {
        ForestShift(menus, x, trail + [menus[i].id], 0);
        assert [x] + (trail + [menus[i].id]) == [x] + trail + [menus[i].id];
      }
    }
  }

  lemma WellNumberedEnds(menus: seq<Item>)
    requires WellNumbered(menus)
    ensures Ends(menus)
  {
    WellNumberedGrounded(menus);
    TableIsList(menus);
    forall i | 0 <= i < |menus| && menus[i].parentId == 0 ensures Grounded(menus, menus[i].id) {
      RootGrounded(menus, i);
    }
  }

  lemma {:induction false} RootsAreForest(menus: seq<Item>, i: int)
    requires WellNumbered(menus) && Ends(menus) && Grounded(menus, 0) && Trail(menus, 0, []) && 0 <= i <= |menus|
    ensures Roots(menus, i) == Forest(menus, 0, [], i)
    decreases |menus| - i
  {
    if i < |menus| {
      hide Table, Forest, Grounded, Trail;
      RootsAreForest(menus, i + 1);
      ForestNext(menus, 0, [], i);
      TableIsList(menus);
      if menus[i].parentId == 0 {
        RootGrounded(menus, i);
        ForestShift(menus, menus[i].id, [], 0);
        assert [menus[i].id] + [] == [] + [menus[i].id];
      }
    }
  }

  /** Siblings stand in the order of the table, at every depth. */
  ghost predicate InTableOrder(menus: seq<Item>, f: seq<Menu>) {
    f != [] ==>
      && InTableOrder(menus, f[0].children) && InTableOrder(menus, f[1..])
      && (|f| > 1 ==> Position(menus, f[0].item.id) < Position(menus, f[1].item.id))
  }

  lemma {:induction false} ForestInTableOrder(menus: seq<Item>, trail: seq<int>, i: int)
    requires WellNumbered(menus) && Trail(menus, 0, trail) && Grounded(menus, 0) && 0 <= i <= |menus|
    ensures var f := Forest(menus, 0, trail, i);
      InTableOrder(menus, f) && (f != [] ==> Position(menus, f[0].item.id) >= i)
    decreases |menus| - |trail|, |menus| - i
  {
    if i < |menus| {
      hide Forest, Grounded, Trail;
      ForestInTableOrder(menus, trail, i + 1);
      ForestNext(menus, 0, trail, i);
      if menus[i].parentId == End(0, trail) {
        ForestInTableOrder(menus, trail + [menus[i].id], 0);
        PosOf(menus, i);
        var f := Forest(menus, 0, trail, i);
        assert f[1..] == Forest(menus, 0, trail, i + 1);
        assert |f| > 1 ==> f[1] == f[1..][0];
      }
    }
  }

  /**
   Whatever cycles or dangling parents the table has: the recursion ends, every item whose parent chain
   leads up to 0 occurs exactly once, every other item not at all, each hangs below its own parent, and
   siblings stand in the order of the list.
   */
  lemma ForestIsExact(menus: seq<Item>, id: int)
    requires WellNumbered(menus)
    ensures Ends(menus)
    ensures Count(Roots(menus, 0), id) == if Reachable(menus, id) then 1 else 0
    ensures Placed(menus, Roots(menus, 0), 0)
    ensures InTableOrder(menus, Roots(menus, 0))
  {
    WellNumberedEnds(menus);
    WellNumberedGrounded(menus);
    RootsAreForest(menus, 0);
    ForestPlaced(menus, [], 0);
    ForestInTableOrder(menus, [], 0);
    if Reachable(menus, id) {
      var t :| t != [] && Trail(menus, 0, t) && End(0, t) == id;
      CountReachable(menus, [], 0, t);
      TrailLink(menus, t, 0);
    } else {
      CountUnreachable(menus, [], 0, id);
    }
  }

  /** The chain that goes round between two ids. */
  function Alternating(a: int, b: int, n: nat): seq<int> {
    if n == 0 then []
    else
      var prev := Alternating(a, b, n - 1);
      prev + [if End(a, prev) == a then b else a]
  }

  lemma {:induction false} CycleIsTrail(table: seq<Item>, a: int, b: int, n: nat)
    requires Has(table, a, b) && Has(table, b, a)
    ensures var trail := Alternating(a, b, n);
      Trail(table, a, trail) && |trail| == n && (End(a, trail) == a || End(a, trail) == b)
  {
    hide Has;
    if n > 0 {
      CycleIsTrail(table, a, b, n - 1);
      var trail := Alternating(a, b, n);
      assert trail[..|trail| - 1] == Alternating(a, b, n - 1);
    }
  }

  lemma UpsertSame(x: Item, y: Item)
    requires x.id == y.id
    ensures Upsert([x], y) == [y]
  {
    assert [x][0].id == y.id;
    hide Position;
    assert Position([x], y.id) == 0;
  }

  lemma DuplicateTable(x: Item, y: Item, z: Item)
    requires x.id == y.id && y.id != z.id
    ensures Table([x, y, z]) == [y, z]
  {
    var two, three := [x] + [y], [x] + [y] + [z];
    assert Table([x]) == [x] by {
      assert [x][..0] == [];
    }
    hide Table;
    TableNext([x], y);
    UpsertSame(x, y);
    TableNext(two, z);
    UpsertNew([y], z);
    assert three == [x, y, z];
  }

  /** A repeated id can close a cycle below a root item: these three items make the recursion endless. */
  lemma DuplicateCycle(x: Item, y: Item, z: Item)
    requires x.id == y.id == z.parentId && x.id != z.id && x.parentId == 0 && y.parentId == z.id
    ensures !Ends([x, y, z])
  {
    var menus, table := [x, y, z], [y, z];
    DuplicateTable(x, y, z);
    hide Table;
    assert table[0] == y && table[1] == z;
    assert Has(table, x.id, z.id) && Has(table, z.id, x.id);
    CycleIsTrail(table, x.id, z.id, 3);
    assert menus[0].parentId == 0 && !Grounded(table, menus[0].id);
  }
}
