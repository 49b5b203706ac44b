/**
 The values behind the red-black tree: what the links, colours and coordinates of all nodes
 are at one moment, when they form a red-black tree, and what one rotation, one attachment,
 one detachment and one recolouring do to them.

 The nodes of a tree in search order form a sequence `order`. A cell records, next to the
 four stored fields of a node, its index `pos` in that sequence, the stretch `[lo, hi)` of
 the sequence covered by the subtree below it, and the number `bh` of black nodes on a path
 from it down to a leaf. With these coordinates every condition on the tree is a statement
 about one node and its neighbours.
 */
module RedBlackCells {
  type Key(!new)

  datatype Color = Red | Black

  datatype Side = L | R {
    function Opposite(): Side { if L? then R else L }
  }

  class Node {
    const key: Key
    var left: Node?
    var right: Node?
    var parent: Node?
    var color: Color

    constructor (key: Key)
      ensures this.key == key
    {
      this.key := key;
      left, right, parent, color := null, null, null, Red;
    }
  }

  datatype Cell = Cell(left: Node?, right: Node?, parent: Node?, color: Color,
                       lo: int, hi: int, pos: int, bh: int)
  {
    function Kid(d: Side): Node? { if d.L? then left else right }

    function With(d: Side, n: Node?): Cell { if d.L? then this.(left := n) else this.(right := n) }
  }

  type Cells = map<Node, Cell>

  // ---------- What makes the cells a red-black tree ----------

  /** The left child of `n`, if any, points back to it and covers the stretch up to `n`. */
  ghost predicate LeftLinked(m: Cells, n: Node)
    requires n in m
  {
    var c := m[n];
    if c.left == null then c.lo == c.pos
    else c.left in m && m[c.left].parent == n && m[c.left].lo == c.lo && m[c.left].hi == c.pos
  }

  ghost predicate RightLinked(m: Cells, n: Node)
    requires n in m
  {
    var c := m[n];
    if c.right == null then c.hi == c.pos + 1
    else c.right in m && m[c.right].parent == n && m[c.right].lo == c.pos + 1 && m[c.right].hi == c.hi
  }

  /** The parent of `n` has it as a child; only the root has no parent. */
  ghost predicate UpLinked(m: Cells, root: Node?, n: Node)
    requires n in m
  {
    var p := m[n].parent;
    if p == null then n == root else p in m && (m[p].left == n || m[p].right == n)
  }

  /** The links of `n` agree with its coordinates and with the links of its neighbours. */
  ghost predicate Linked(m: Cells, root: Node?, len: int, n: Node)
    requires n in m
  {
    && 0 <= m[n].lo <= m[n].pos < m[n].hi <= len
    && LeftLinked(m, n) && RightLinked(m, n) && UpLinked(m, root, n)
  }

  /** The cells form one binary tree below `root` with `len` nodes. */
  ghost predicate Links(m: Cells, root: Node?, len: int) {
    && (root == null ==> m == map[] && len == 0)
    && (root != null ==> root in m && m[root].parent == null && m[root].lo == 0 && m[root].hi == len)
    && forall n {:trigger Linked(m, root, len, n)} :: n in m ==> Linked(m, root, len, n)
  }

  /** `order` lists exactly the nodes, each at its own position. */
  ghost predicate Indexed(m: Cells, order: seq<Node>) {
    && (forall n :: n in m ==> 0 <= m[n].pos < |order| && order[m[n].pos] == n)
    && (forall i {:trigger order[i]} :: 0 <= i < |order| ==> order[i] in m && m[order[i]].pos == i)
  }

  /** The same nodes at the same positions, however they are linked and coloured. */
  ghost predicate SamePlaces(m: Cells, m': Cells) {
    m'.Keys == m.Keys && forall n :: n in m ==> m'[n].pos == m[n].pos
  }

  lemma SamePlacesIndexed(m: Cells, m': Cells, order: seq<Node>)
    requires SamePlaces(m, m') && Indexed(m, order)
    ensures Indexed(m', order)
  {
  }

  ghost function Height(m: Cells, n: Node?): int {
    if n != null && n in m then m[n].bh else 0
  }

  ghost predicate IsRed(m: Cells, n: Node?) {
    n != null && n in m && m[n].color.Red?
  }

  /** Both sides of `n` hold equally many black nodes on every path; `bh` counts `n` on top. */
  ghost predicate Balanced(m: Cells, n: Node)
    requires n in m
  {
    && m[n].bh >= 0
    && Height(m, m[n].left) == Height(m, m[n].right)
    && m[n].bh == Height(m, m[n].left) + (if m[n].color.Black? then 1 else 0)
  }

  /** A red `n` has no red child, other than possibly `except`. */
  ghost predicate NoRedKid(m: Cells, n: Node, except: Node?)
    requires n in m
  {
    m[n].color.Red? ==>
      (IsRed(m, m[n].left) ==> m[n].left == except) && (IsRed(m, m[n].right) ==> m[n].right == except)
  }

  ghost predicate BlackRoot(m: Cells, root: Node?) {
    !IsRed(m, root)
  }

  /** The conditions of a red-black tree. */
  ghost predicate RedBlack(m: Cells, root: Node?, len: int) {
    && Links(m, root, len)
    && BlackRoot(m, root)
    && (forall n {:trigger Balanced(m, n)} :: n in m ==> Balanced(m, n))
    && (forall n {:trigger NoRedKid(m, n, null)} :: n in m ==> NoRedKid(m, n, null))
  }

  // ---------- Rotations ----------

  function Pivot(m: Cells, x: Node, d: Side): Node?
    requires x in m
  {
    m[x].Kid(d.Opposite())
  }

  ghost predicate CanRotate(m: Cells, x: Node, d: Side) {
    x in m && Pivot(m, x, d) != null && Pivot(m, x, d) in m
  }

  ghost function RotatedCell(m: Cells, x: Node, d: Side, n: Node): Cell
    requires CanRotate(m, x, d) && n in m
  {
    var y := Pivot(m, x, d);
    var inner := m[y].Kid(d);
    var c := m[n];
    if n == x then
      var c' := c.With(d.Opposite(), inner).(parent := y);
      if d.L? then c'.(hi := m[y].pos) else c'.(lo := m[y].pos + 1)
    else if n == y then
      c.With(d, x).(parent := m[x].parent, lo := m[x].lo, hi := m[x].hi)
    else
      c.(left := if c.left == x then y else c.left, right := if c.right == x then y else c.right,
         parent := if n == inner then x else c.parent)
  }

  /** Rotating at `x` towards side `d`: the child on the other side takes the place of `x`. */
  ghost function Rotate(m: Cells, x: Node, d: Side): Cells
    requires CanRotate(m, x, d)
  {
    map n | n in m :: RotatedCell(m, x, d, n)
  }

  ghost function RotatedRoot(m: Cells, root: Node?, x: Node, d: Side): Node?
    requires x in m
  {
    if root == x then Pivot(m, x, d) else root
  }

  lemma RotateLeftLinked(m: Cells, root: Node?, len: int, x: Node, d: Side, n: Node)
    requires CanRotate(m, x, d) && n in m
    requires Linked(m, root, len, x) && Linked(m, root, len, Pivot(m, x, d)) && Linked(m, root, len, n)
    ensures LeftLinked(Rotate(m, x, d), n)
  {
  }

  lemma RotateRightLinked(m: Cells, root: Node?, len: int, x: Node, d: Side, n: Node)
    requires CanRotate(m, x, d) && n in m
    requires Linked(m, root, len, x) && Linked(m, root, len, Pivot(m, x, d)) && Linked(m, root, len, n)
    ensures RightLinked(Rotate(m, x, d), n)
  {
  }

  lemma RotateUpLinked(m: Cells, root: Node?, len: int, x: Node, d: Side, n: Node)
    requires CanRotate(m, x, d) && n in m
    requires Linked(m, root, len, x) && Linked(m, root, len, Pivot(m, x, d)) && Linked(m, root, len, n)
    ensures UpLinked(Rotate(m, x, d), RotatedRoot(m, root, x, d), n)
  {
  }

  lemma RotateKeepsLinks(m: Cells, root: Node?, len: int, x: Node, d: Side)
    requires Links(m, root, len) && CanRotate(m, x, d)
    ensures Links(Rotate(m, x, d), RotatedRoot(m, root, x, d), len)
  {
    assert Linked(m, root, len, x);
    forall n | n in Rotate(m, x, d) ensures Linked(Rotate(m, x, d), RotatedRoot(m, root, x, d), len, n) {
      assert Linked(m, root, len, n) && Linked(m, root, len, Pivot(m, x, d));
      RotateLeftLinked(m, root, len, x, d, n);
      RotateRightLinked(m, root, len, x, d, n);
      RotateUpLinked(m, root, len, x, d, n);
    }
  }

  lemma RotateKeepsIndexed(m: Cells, order: seq<Node>, x: Node, d: Side)
    requires Indexed(m, order) && CanRotate(m, x, d)
    ensures Indexed(Rotate(m, x, d), order)
  {
  }

  /** A rotation touches four nodes: the two rotated ones, the inner child and the parent. */
  lemma RotateTouches(m: Cells, root: Node?, len: int, x: Node, d: Side, n: Node)
    requires Links(m, root, len) && CanRotate(m, x, d) && n in m && n != x && n != Pivot(m, x, d)
    ensures var m', y, c := Rotate(m, x, d), Pivot(m, x, d), m[n];
      m'[n] == if n == m[y].Kid(d) then c.(parent := x)
               else if n != m[x].parent then c
               else if c.left == x then c.(left := y) else c.(right := y)
  {
    assert Linked(m, root, len, x) && Linked(m, root, len, Pivot(m, x, d)) && Linked(m, root, len, n);
  }

  // ---------- Attaching a new leaf ----------

  function AttachIndex(m: Cells, p: Node, d: Side): int
    requires p in m
  {
    m[p].pos + if d.L? then 0 else 1
  }

  ghost function AttachedCell(m: Cells, p: Node, d: Side, e: Node, n: Node): Cell
    requires p in m && (n in m || n == e)
  {
    var k := AttachIndex(m, p, d);
    if n == e then Cell(null, null, p, Red, k, k + 1, k, 0)
    else
      var c := if n == p then m[n].With(d, e) else m[n];
      c.(lo := c.lo + (if c.lo > m[p].pos then 1 else 0), hi := c.hi + (if c.hi > m[p].pos then 1 else 0),
         pos := c.pos + (if c.pos >= k then 1 else 0))
  }

  /** A new red leaf `e` on side `d` of `p`. */
  ghost function Attach(m: Cells, p: Node, d: Side, e: Node): Cells
    requires p in m
  {
    map n | n in m.Keys + {e} :: AttachedCell(m, p, d, e, n)
  }

  lemma AttachLinked(m: Cells, root: Node?, len: int, p: Node, d: Side, e: Node, n: Node)
    requires p in m && n in m && e !in m && m[p].Kid(d) == null
    requires Linked(m, root, len, p) && Linked(m, root, len, n) && (n != p ==> m[n].pos != m[p].pos)
    ensures Linked(Attach(m, p, d, e), root, len + 1, n)
  {
  }

  lemma AttachKeepsLinks(m: Cells, root: Node?, order: seq<Node>, p: Node, d: Side, e: Node)
    requires Links(m, root, |order|) && Indexed(m, order)
    requires p in m && m[p].Kid(d) == null && e !in m
    ensures Links(Attach(m, p, d, e), root, |order| + 1)
  {
    var m' := Attach(m, p, d, e);
    assert Linked(m, root, |order|, p);
    forall n | n in m' ensures Linked(m', root, |order| + 1, n) {
      if n != e {
        assert Linked(m, root, |order|, n);
        AttachLinked(m, root, |order|, p, d, e, n);
      }
    }
  }

  lemma AttachKeepsIndexed(m: Cells, order: seq<Node>, p: Node, d: Side, e: Node)
    requires Indexed(m, order) && p in m && e !in m
    ensures var k := AttachIndex(m, p, d);
            0 <= k <= |order| && Indexed(Attach(m, p, d, e), order[..k] + [e] + order[k..])
  {
    var k := AttachIndex(m, p, d);
    var m', order' := Attach(m, p, d, e), order[..k] + [e] + order[k..];
    assert order'[k] == e;
    forall n | n in m' ensures 0 <= m'[n].pos < |order'| && order'[m'[n].pos] == n {
      assert n != e ==> order[m[n].pos] == n;
    }
    forall i | 0 <= i < |order'| ensures order'[i] in m' && m'[order'[i]].pos == i {
      if i < k {
        assert order'[i] == order[i];
      } else if i > k {
        assert order'[i] == order[i - 1];
      }
    }
  }

  // ---------- Detaching a node with at most one child ----------

  function OnlyKid(m: Cells, x: Node): Node?
    requires x in m
  {
    if m[x].left == null then m[x].right else m[x].left
  }

  ghost function DetachedCell(m: Cells, x: Node, n: Node): Cell
    requires x in m && n in m
  {
    var kid, k, c := OnlyKid(m, x), m[x].pos, m[n];
    c.(left := if c.left == x then kid else c.left, right := if c.right == x then kid else c.right,
       parent := if n == kid then m[x].parent else c.parent,
       lo := c.lo - (if c.lo > k then 1 else 0), hi := c.hi - (if c.hi > k then 1 else 0),
       pos := c.pos - (if c.pos > k then 1 else 0))
  }

  /** Taking `x` out and putting its only child, if any, in its place. */
  ghost function Detach(m: Cells, x: Node): Cells
    requires x in m
  {
    map n | n in m.Keys - {x} :: DetachedCell(m, x, n)
  }

  ghost function DetachedRoot(m: Cells, root: Node?, x: Node): Node?
    requires x in m
  {
    if root == x then OnlyKid(m, x) else root
  }

  lemma DetachLinked(m: Cells, root: Node?, len: int, x: Node, n: Node)
    requires x in m && n in m && n != x && (m[x].left == null || m[x].right == null)
    requires Linked(m, root, len, x) && Linked(m, root, len, n) && m[n].pos != m[x].pos
    ensures Linked(Detach(m, x), DetachedRoot(m, root, x), len - 1, n)
  {
  }

  lemma DetachKeepsLinks(m: Cells, root: Node?, order: seq<Node>, x: Node)
    requires Links(m, root, |order|) && Indexed(m, order)
    requires x in m && (m[x].left == null || m[x].right == null)
    ensures Links(Detach(m, x), DetachedRoot(m, root, x), |order| - 1)
  {
    var m', root' := Detach(m, x), DetachedRoot(m, root, x);
    assert Linked(m, root, |order|, x);
    if root' == null {
      assert m' == map[];
    }
    forall n | n in m' ensures Linked(m', root', |order| - 1, n) {
      assert Linked(m, root, |order|, n);
      DetachLinked(m, root, |order|, x, n);
    }
  }

  lemma DetachKeepsIndexed(m: Cells, order: seq<Node>, x: Node)
    requires Indexed(m, order) && x in m
    ensures var k := m[x].pos; Indexed(Detach(m, x), order[..k] + order[k + 1..])
  {
    var k := m[x].pos;
    var m', order' := Detach(m, x), order[..k] + order[k + 1..];
    forall i | 0 <= i < |order'| ensures order'[i] in m' && m'[order'[i]].pos == i {
      assert order'[i] == order[if i < k then i else i + 1];
    }
  }

  lemma DetachTouches(m: Cells, root: Node?, len: int, x: Node, n: Node)
    requires Links(m, root, len) && x in m && n in m && n != x && (m[x].left == null || m[x].right == null)
    ensures var c, c', kid := m[n], Detach(m, x)[n], OnlyKid(m, x);
      && c'.color == c.color && c'.bh == c.bh
      && (n == kid ==> c'.left == c.left && c'.right == c.right && c'.parent == m[x].parent)
      && (n != kid ==> c'.parent == c.parent)
      && (n != kid && n != m[x].parent ==> c'.left == c.left && c'.right == c.right)
      && (n == m[x].parent ==> if c.left == x then c'.left == kid && c'.right == c.right
                               else c'.left == c.left && c'.right == kid)
  {
    assert Linked(m, root, len, x) && Linked(m, root, len, n);
  }

  // ---------- Putting one node in the place of another ----------

  ghost function ReplacedCell(m: Cells, x: Node, y: Node, n: Node): Cell
    requires x in m && (n in m || n == y)
  {
    var c := if n == y then m[x] else m[n];
    c.(left := if c.left == x then y else c.left, right := if c.right == x then y else c.right,
       parent := if c.parent == x then y else c.parent)
  }

  /** `y`, from outside the tree, takes over the links, colour and place of `x`. */
  ghost function Replace(m: Cells, x: Node, y: Node): Cells
    requires x in m
  {
    map n | n in m.Keys - {x} + {y} :: ReplacedCell(m, x, y, n)
  }

  lemma ReplaceLinked(m: Cells, root: Node?, len: int, x: Node, y: Node, n: Node)
    requires x in m && y !in m && n in m
    requires Linked(m, root, len, x) && Linked(m, root, len, n)
    ensures Linked(Replace(m, x, y), if root == x then y else root, len, if n == x then y else n)
  {
  }

  lemma ReplaceKeepsLinks(m: Cells, root: Node?, len: int, x: Node, y: Node)
    requires Links(m, root, len) && x in m && y !in m
    ensures Links(Replace(m, x, y), if root == x then y else root, len)
  {
    var m', root' := Replace(m, x, y), if root == x then y else root;
    assert Linked(m, root, len, x);
    forall n | n in m' ensures Linked(m', root', len, n) {
      var n0 := if n == y then x else n;
      assert Linked(m, root, len, n0);
      ReplaceLinked(m, root, len, x, y, n0);
    }
  }

  lemma ReplaceKeepsIndexed(m: Cells, order: seq<Node>, x: Node, y: Node)
    requires Indexed(m, order) && x in m && y !in m
    ensures Indexed(Replace(m, x, y), order[m[x].pos := y])
  {
    var m', order' := Replace(m, x, y), order[m[x].pos := y];
    forall i | 0 <= i < |order'| ensures order'[i] in m' && m'[order'[i]].pos == i {
      assert order[i] in m;
    }
  }

  lemma ReplaceTouches(m: Cells, root: Node?, len: int, x: Node, y: Node, n: Node)
    requires Links(m, root, len) && x in m && y !in m && n in m && n != x
    ensures var c, c' := m[n], Replace(m, x, y)[n];
      && c'.color == c.color
      && c'.parent == (if n == m[x].left || n == m[x].right then y else c.parent)
      && (n != m[x].parent ==> c'.left == c.left && c'.right == c.right)
      && (n == m[x].parent ==> if c.left == x then c'.left == y && c'.right == c.right
                               else c'.left == c.left && c'.right == y)
  {
    assert Linked(m, root, len, x) && Linked(m, root, len, n);
  }
}
