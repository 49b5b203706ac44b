/**
 The tree as a plain inductive value, the conditions on it that do not mention coordinates,
 and the height bound over whole runs of insertions and removals.
 */
module RedBlackView {
  import opened RedBlackCells
  import opened RedBlackTree

  datatype View = Leaf | Bin(left: View, node: Node, color: Color, right: View)

  function Inorder(t: View): seq<Node> {
    match t
    case Leaf => []
    case Bin(l, n, _, r) => Inorder(l) + [n] + Inorder(r)
  }

  function Depth(t: View): nat {
    match t
    case Leaf => 0
    case Bin(l, _, _, r) => 1 + if Depth(l) < Depth(r) then Depth(r) else Depth(l)
  }

  /** The numbers of black nodes on the paths from the root of `t` down to its leaves. */
  ghost function BlackCounts(t: View): set<int> {
    match t
    case Leaf => {0}
    case Bin(l, _, c, r) =>
      set b | b in BlackCounts(l) + BlackCounts(r) :: b + if c.Black? then 1 else 0
  }

  predicate HasRedTop(t: View) {
    t.Bin? && t.color.Red?
  }

  /** Every red node below another node has a black parent. */
  predicate NoRedPair(t: View) {
    match t
    case Leaf => true
    case Bin(l, _, c, r) =>
      NoRedPair(l) && NoRedPair(r) && (c.Red? ==> !HasRedTop(l) && !HasRedTop(r))
  }

  function Pow2(n: nat): nat {
    if n == 0 then 1 else 2 * Pow2(n - 1)
  }

  lemma {:induction false} Pow2Add(a: nat, b: nat)
    ensures Pow2(a + b) == Pow2(a) * Pow2(b)
  {
    if a > 0 {
      Pow2Add(a - 1, b);
    }
  }

  lemma {:induction false} Pow2Monotone(a: nat, b: nat)
    requires a <= b
    ensures Pow2(a) <= Pow2(b)
  {
    if a < b {
      Pow2Monotone(a, b - 1);
    }
  }

  /** Equal black counts on all paths, as a recursive condition. */
  lemma {:induction false} BlackCountsSplit(t: View, b: int)
    requires t.Bin? && BlackCounts(t) == {b}
    ensures var d := b - (if t.color.Black? then 1 else 0);
      BlackCounts(t.left) == {d} && BlackCounts(t.right) == {d}
  {
    var k := if t.color.Black? then 1 else 0;
    SomeBlackCount(t.left);
    SomeBlackCount(t.right);
    forall c | c in BlackCounts(t.left) + BlackCounts(t.right) ensures c == b - k {
      assert c + k in BlackCounts(t);
    }
  }

  lemma {:induction false} SomeBlackCount(t: View)
    ensures exists b :: b in BlackCounts(t)
  {
    if t.Leaf? {
      assert 0 in BlackCounts(t);
    } else {
      SomeBlackCount(t.left);
      var b :| b in BlackCounts(t.left);
      assert b + (if t.color.Black? then 1 else 0) in BlackCounts(t);
    }
  }

  lemma {:induction false} BlackCountBounds(t: View, b: int)
    requires BlackCounts(t) == {b} && NoRedPair(t)
    ensures b >= 0
    ensures Depth(t) <= 2 * b + (if HasRedTop(t) then 1 else 0)
    ensures Pow2(b) <= |Inorder(t)| + 1
  {
    match t
    case Leaf =>
      assert 0 in BlackCounts(t);
    case Bin(l, _, c, r) =>
      BlackCountsSplit(t, b);
      var d := b - (if c.Black? then 1 else 0);
      BlackCountBounds(l, d);
      BlackCountBounds(r, d);
  }

  lemma SquareMonotone(x: nat, y: nat)
    requires x <= y
    ensures x * x <= y * y
  {
    assert x * x <= x * y;
    assert x * y <= y * y;
  }

  /** The height is at most 2 lg (n + 1) for n nodes. */
  lemma HeightBound(t: View, b: int)
    requires BlackCounts(t) == {b} && NoRedPair(t) && !HasRedTop(t)
    ensures Pow2(Depth(t)) <= (|Inorder(t)| + 1) * (|Inorder(t)| + 1)
  {
    BlackCountBounds(t, b);
    Pow2Monotone(Depth(t), b + b);
    Pow2Add(b, b);
    SquareMonotone(Pow2(b), |Inorder(t)| + 1);
  }

  // ---------- The view of a tree in memory ----------

  ghost function ViewOf(m: Cells, root: Node?, len: int, n: Node?): View
    requires Links(m, root, len) && (n != null ==> n in m)
    decreases if n == null then 0 else m[n].hi - m[n].lo
  {
    if n == null then Leaf
    else
      assert Linked(m, root, len, n);
      assert m[n].left != null ==> Linked(m, root, len, m[n].left);
      assert m[n].right != null ==> Linked(m, root, len, m[n].right);
      Bin(ViewOf(m, root, len, m[n].left), n, m[n].color, ViewOf(m, root, len, m[n].right))
  }

  lemma StretchSplits(order: seq<Node>, lo: int, pos: int, hi: int)
    requires 0 <= lo <= pos < hi <= |order|
    ensures order[lo..pos] + [order[pos]] + order[pos + 1..hi] == order[lo..hi]
  {
  }

  /** The walk of a subtree is its stretch of the order. */
  lemma {:induction false} ViewInorder(m: Cells, root: Node?, order: seq<Node>, n: Node)
    requires Links(m, root, |order|) && Indexed(m, order) && n in m
    ensures 0 <= m[n].lo <= m[n].hi <= |order|
    ensures Inorder(ViewOf(m, root, |order|, n)) == order[m[n].lo..m[n].hi]
    decreases m[n].hi - m[n].lo
  {
    assert Linked(m, root, |order|, n);
    var c := m[n];
    if c.left != null {
      assert Linked(m, root, |order|, c.left);
      ViewInorder(m, root, order, c.left);
    }
    if c.right != null {
      assert Linked(m, root, |order|, c.right);
      ViewInorder(m, root, order, c.right);
    }
    StretchSplits(order, c.lo, c.pos, c.hi);
  }

  lemma {:induction false} ViewColors(m: Cells, root: Node?, len: int, n: Node?)
    requires RedBlack(m, root, len) && (n != null ==> n in m)
    ensures var t := ViewOf(m, root, len, n);
      BlackCounts(t) == {Height(m, n)} && NoRedPair(t) && HasRedTop(t) == IsRed(m, n)
    decreases if n == null then 0 else m[n].hi - m[n].lo
  {
    if n != null {
      assert Linked(m, root, len, n) && Balanced(m, n) && NoRedKid(m, n, null);
      var c := m[n];
      assert c.left != null ==> Linked(m, root, len, c.left);
      assert c.right != null ==> Linked(m, root, len, c.right);
      ViewColors(m, root, len, c.left);
      ViewColors(m, root, len, c.right);
      assert Height(m, c.left) in BlackCounts(ViewOf(m, root, len, c.left));
    }
  }

  /** The conditions of the header comment, on the plain tree below the root. */
  ghost predicate IsRedBlackTree(t: View, order: seq<Node>) {
    && Inorder(t) == order
    && (exists b :: BlackCounts(t) == {b})
    && NoRedPair(t) && !HasRedTop(t)
    && Pow2(Depth(t)) <= (|order| + 1) * (|order| + 1)
  }

  lemma CellsAreRedBlackTree(m: Cells, root: Node?, order: seq<Node>)
    requires RedBlack(m, root, |order|) && Indexed(m, order)
    ensures IsRedBlackTree(ViewOf(m, root, |order|, root), order)
  {
    var t := ViewOf(m, root, |order|, root);
    ViewColors(m, root, |order|, root);
    if root != null {
      ViewInorder(m, root, order, root);
    }
    HeightBound(t, Height(m, root));
  }

  // ---------- Runs ----------

  datatype Op = Insert(node: Node) | Remove(node: Node)

  /** The set of nodes after one operation: an insertion is void when an equal node is present. */
  ghost function After(cmp: (Key, Key) -> int, s: set<Node>, op: Op): set<Node> {
    match op
    case Insert(n) => if exists x :: x in s && cmp(n.key, x.key) == 0 then s else s + {n}
    case Remove(n) => s - {n}
  }

  ghost function AfterAll(cmp: (Key, Key) -> int, s: set<Node>, ops: seq<Op>): set<Node> {
    if ops == [] then s else After(cmp, AfterAll(cmp, s, ops[..|ops| - 1]), ops[|ops| - 1])
  }

  /** Only nodes that are in the tree are removed. */
  ghost predicate Legal(cmp: (Key, Key) -> int, ops: seq<Op>) {
    forall i :: 0 <= i < |ops| && ops[i].Remove? ==> ops[i].node in AfterAll(cmp, {}, ops[..i])
  }

  method Step(t: Tree, op: Op)
    requires t.Valid() && (op.Remove? ==> op.node in t.cells)
    modifies t, t.cells.Keys, op.node
    ensures t.Valid() && t.cells.Keys == After(t.cmp, old(t.cells.Keys), op)
  {
    match op
    case Insert(n) =>
      var found, _ := t.Insert(n);
    case Remove(n) =>
      var _, _ := t.Remove(n);
  }

  /** Any run from the empty tree ends in a red-black tree over exactly the surviving nodes. */
  method Run(cmp: (Key, Key) -> int, ops: seq<Op>) returns (t: Tree)
    requires IsComparison(cmp) && Legal(cmp, ops)
    modifies set op | op in ops :: op.node
    ensures t.Valid() && t.cells.Keys == AfterAll(cmp, {}, ops)
    ensures Sorted(cmp, t.order) && forall n :: n in t.order <==> n in AfterAll(cmp, {}, ops)
    ensures IsRedBlackTree(ViewOf(t.cells, t.root, |t.order|, t.root), t.order)
  {
    t := new Tree(cmp);
    ghost var nodes := set op | op in ops :: op.node;
    for i := 0 to |ops|
      invariant fresh(t) && t.cmp == cmp && t.Valid()
      invariant t.cells.Keys == AfterAll(cmp, {}, ops[..i]) && t.cells.Keys <= nodes
    {
      assert ops[..i + 1][..i] == ops[..i];
      assert ops[i] in ops;
      Step(t, ops[i]);
    }
    assert ops[..|ops|] == ops;
    CellsAreRedBlackTree(t.cells, t.root, t.order);
  }
}
