/**
 The operations generated by the RB_* macros, on nodes that hold their own links. `cells`
 mirrors the fields of all nodes of the tree and `order` lists the nodes in search order.
 */
module RedBlackTree {
  import opened RedBlackCells
  import opened RedBlackBalance

  /** What the tree expects of the user's comparison: its sign is a total preorder. */
  ghost predicate IsComparison(cmp: (Key, Key) -> int) {
    && (forall a, b :: cmp(a, b) < 0 <==> cmp(b, a) > 0)
    && (forall a, b, c :: cmp(a, b) <= 0 && cmp(b, c) <= 0 ==> cmp(a, c) <= 0)
  }

  ghost predicate Sorted(cmp: (Key, Key) -> int, order: seq<Node>) {
    forall i, j :: 0 <= i < j < |order| ==> cmp(order[i].key, order[j].key) < 0
  }

  /** In the order, all nodes before `lo` are below `key` and all nodes from `hi` on are above it. */
  ghost predicate Brackets(cmp: (Key, Key) -> int, order: seq<Node>, key: Key, lo: int, hi: int) {
    && 0 <= lo <= hi <= |order|
    && (forall i :: 0 <= i < lo ==> cmp(key, order[i].key) > 0)
    && (forall i :: hi <= i < |order| ==> cmp(key, order[i].key) < 0)
  }

  /** One comparison decides about a whole side of the order. */
  lemma BracketsNarrow(cmp: (Key, Key) -> int, order: seq<Node>, key: Key, p: int)
    requires IsComparison(cmp) && Sorted(cmp, order) && 0 <= p < |order|
    ensures cmp(key, order[p].key) < 0 ==> forall i :: p <= i < |order| ==> cmp(key, order[i].key) < 0
    ensures cmp(key, order[p].key) > 0 ==> forall i :: 0 <= i <= p ==> cmp(key, order[i].key) > 0
  {
    forall i | 0 <= i < |order| && i != p
      ensures i > p && cmp(key, order[p].key) < 0 ==> cmp(key, order[i].key) < 0
      ensures i < p && cmp(key, order[p].key) > 0 ==> cmp(key, order[i].key) > 0
    {
      var a, b := order[p].key, order[i].key;
      if i > p && cmp(key, a) < 0 {
        assert cmp(a, b) < 0 && cmp(key, b) <= 0;
        assert cmp(b, key) <= 0 ==> cmp(b, a) <= 0;
      } else if i < p && cmp(key, a) > 0 {
        assert cmp(b, a) < 0 && cmp(b, key) <= 0;
        assert cmp(key, b) <= 0 ==> cmp(a, b) <= 0;
      }
    }
  }

  /** What stands before a node with an equal key is below the key. */
  lemma EqualKeyAbove(cmp: (Key, Key) -> int, order: seq<Node>, key: Key, p: int)
    requires IsComparison(cmp) && Sorted(cmp, order) && 0 <= p < |order| && cmp(key, order[p].key) == 0
    ensures forall i :: 0 <= i < p ==> cmp(key, order[i].key) > 0
  {
    forall i | 0 <= i < p ensures cmp(key, order[i].key) > 0 {
      var a, b := order[p].key, order[i].key;
      assert cmp(b, a) < 0 && cmp(a, key) <= 0;
      assert cmp(key, b) <= 0 ==> cmp(a, b) <= 0;
    }
  }

  /** A new node put where its key belongs keeps the order sorted. */
  lemma InsertKeepsSorted(cmp: (Key, Key) -> int, order: seq<Node>, e: Node, k: int)
    requires IsComparison(cmp) && Sorted(cmp, order) && Brackets(cmp, order, e.key, k, k)
    ensures Sorted(cmp, order[..k] + [e] + order[k..])
    ensures e !in order
  {
    var s := order[..k] + [e] + order[k..];
    forall i, j | 0 <= i < j < |s| ensures cmp(s[i].key, s[j].key) < 0 {
      assert i < k ==> s[i] == order[i];
      assert i > k ==> s[i] == order[i - 1];
      assert j < k ==> s[j] == order[j];
      assert j > k ==> s[j] == order[j - 1];
    }
    assert cmp(e.key, e.key) == 0;
  }

  lemma RemoveKeepsSorted(cmp: (Key, Key) -> int, order: seq<Node>, k: int)
    requires Sorted(cmp, order) && 0 <= k < |order|
    ensures Sorted(cmp, order[..k] + order[k + 1..])
  {
    var s := order[..k] + order[k + 1..];
    forall i, j | 0 <= i < j < |s| ensures cmp(s[i].key, s[j].key) < 0 {
      assert s[i] == order[if i < k then i else i + 1] && s[j] == order[if j < k then j else j + 1];
    }
  }

  /** The cell `c` records the stored fields of `n`. */
  ghost predicate Mirrors(n: Node, c: Cell)
    reads n
  {
    n.left == c.left && n.right == c.right && n.parent == c.parent && n.color == c.color
  }

  class Tree {
    const cmp: (Key, Key) -> int
    var root: Node?
    ghost var cells: Cells
    ghost var order: seq<Node>

    ghost predicate Mirrored()
      reads this`cells, cells.Keys
    {
      forall n :: n in cells ==> Mirrors(n, cells[n])
    }

    /** A binary tree whose in-order walk is `order`, whatever its colours. */
    ghost predicate Shape()
      reads this, cells.Keys
    {
      Mirrored() && Links(cells, root, |order|) && Indexed(cells, order)
    }

    /** A red-black search tree. */
    ghost predicate Valid()
      reads this, cells.Keys
    {
      && IsComparison(cmp)
      && Mirrored() && RedBlack(cells, root, |order|) && Indexed(cells, order)
      && Sorted(cmp, order)
    }

    constructor (cmp: (Key, Key) -> int)
      requires IsComparison(cmp)
      ensures Valid() && order == [] && this.cmp == cmp
    {
      this.cmp := cmp;
      root, cells, order := null, map[], [];
    }

    /** RB_ROTATE_LEFT on the fields alone. */
    method RelinkLeft(elm: Node)
      requires elm.right != null && elm.right != elm
      requires elm.right.left != elm && elm.right.left != elm.right
      requires elm.parent != elm && elm.parent != elm.right && (elm.parent != null ==> elm.parent != elm.right.left)
      modifies this`root, elm, elm.right, elm.right.left, elm.parent
      ensures root == if old(elm.parent) == null then old(elm.right) else old(root)
      ensures elm.left == old(elm.left) && elm.right == old(elm.right.left) && elm.parent == old(elm.right) && elm.color == old(elm.color)
      ensures var tmp := old(elm.right);
        tmp.left == elm && tmp.right == old(elm.right.right) && tmp.parent == old(elm.parent) && tmp.color == old(elm.right.color)
      ensures var inner := old(elm.right.left); inner != null ==>
        inner.left == old(elm.right.left.left) && inner.right == old(elm.right.left.right)
        && inner.parent == elm && inner.color == old(elm.right.left.color)
      ensures var p := old(elm.parent); p != null ==>
        && p.parent == old(elm.parent.parent) && p.color == old(elm.parent.color)
        && p.left == (if old(elm.parent.left) == elm then old(elm.right) else old(elm.parent.left))
        && p.right == (if old(elm.parent.left) == elm then old(elm.parent.right) else old(elm.right))
    {
      var tmp := elm.right;
      elm.right := tmp.left;
      if elm.right != null {
        tmp.left.parent := elm;
      }
      tmp.parent := elm.parent;
      if tmp.parent != null {
        if elm == elm.parent.left {
          elm.parent.left := tmp;
        } else {
          elm.parent.right := tmp;
        }
      } else {
        root := tmp;
      }
      tmp.left := elm;
      elm.parent := tmp;
    }

    method RotateLeft(elm: Node)
      requires Mirrored() && Links(cells, root, |order|) && elm in cells && elm.right != null
      modifies this`root, this`cells, cells.Keys
      ensures CanRotate(old(cells), elm, L) && cells == Rotate(old(cells), elm, L)
      ensures root == RotatedRoot(old(cells), old(root), elm, L)
      ensures Mirrored()
    {
      var tmp := elm.right;
      assert Linked(cells, root, |order|, elm) && Linked(cells, root, |order|, tmp);
      assert elm.parent != null ==> Linked(cells, root, |order|, elm.parent);
      assert tmp.left != null ==> Linked(cells, root, |order|, tmp.left);
      ghost var before, top := cells, root;
      RelinkLeft(elm);
      cells := Rotate(before, elm, L);
      forall n | n in cells && n != elm && n != tmp ensures Mirrors(n, cells[n]) {
        RotateTouches(before, top, |order|, elm, L, n);
      }
    }

    /** RB_ROTATE_RIGHT on the fields alone. */
    method RelinkRight(elm: Node)
      requires elm.left != null && elm.left != elm
      requires elm.left.right != elm && elm.left.right != elm.left
      requires elm.parent != elm && elm.parent != elm.left && (elm.parent != null ==> elm.parent != elm.left.right)
      modifies this`root, elm, elm.left, elm.left.right, elm.parent
      ensures root == if old(elm.parent) == null then old(elm.left) else old(root)
      ensures elm.right == old(elm.right) && elm.left == old(elm.left.right) && elm.parent == old(elm.left) && elm.color == old(elm.color)
      ensures var tmp := old(elm.left);
        tmp.right == elm && tmp.left == old(elm.left.left) && tmp.parent == old(elm.parent) && tmp.color == old(elm.left.color)
      ensures var inner := old(elm.left.right); inner != null ==>
        inner.left == old(elm.left.right.left) && inner.right == old(elm.left.right.right)
        && inner.parent == elm && inner.color == old(elm.left.right.color)
      ensures var p := old(elm.parent); p != null ==>
        && p.parent == old(elm.parent.parent) && p.color == old(elm.parent.color)
        && p.left == (if old(elm.parent.left) == elm then old(elm.left) else old(elm.parent.left))
        && p.right == (if old(elm.parent.left) == elm then old(elm.parent.right) else old(elm.left))
    {
      var tmp := elm.left;
      elm.left := tmp.right;
      if elm.left != null {
        tmp.right.parent := elm;
      }
      tmp.parent := elm.parent;
      if tmp.parent != null {
        if elm == elm.parent.left {
          elm.parent.left := tmp;
        } else {
          elm.parent.right := tmp;
        }
      } else {
        root := tmp;
      }
      tmp.right := elm;
      elm.parent := tmp;
    }

    method RotateRight(elm: Node)
      requires Mirrored() && Links(cells, root, |order|) && elm in cells && elm.left != null
      modifies this`root, this`cells, cells.Keys
      ensures CanRotate(old(cells), elm, R) && cells == Rotate(old(cells), elm, R)
      ensures root == RotatedRoot(old(cells), old(root), elm, R)
      ensures Mirrored()
    {
      var tmp := elm.left;
      assert Linked(cells, root, |order|, elm) && Linked(cells, root, |order|, tmp);
      assert elm.parent != null ==> Linked(cells, root, |order|, elm.parent);
      assert tmp.right != null ==> Linked(cells, root, |order|, tmp.right);
      ghost var before, top := cells, root;
      RelinkRight(elm);
      cells := Rotate(before, elm, R);
      forall n | n in cells && n != elm && n != tmp ensures Mirrors(n, cells[n]) {
        RotateTouches(before, top, |order|, elm, R, n);
      }
    }

    /** The rotation that moves `elm` down on side `d`. */
    method RotateTo(elm: Node, d: Side)
      requires Mirrored() && Links(cells, root, |order|) && CanRotate(cells, elm, d)
      modifies this`root, this`cells, cells.Keys
      ensures CanRotate(old(cells), elm, d) && cells == Rotate(old(cells), elm, d)
      ensures root == RotatedRoot(old(cells), old(root), elm, d)
      ensures Mirrored()
    {
      if d == L {
        RotateLeft(elm);
      } else {
        RotateRight(elm);
      }
    }

    /** Two colour changes, with the black heights that go with them. */
    method SetColors(a: Node, ca: Color, ghost ha: int, b: Node, cb: Color, ghost hb: int)
      requires Mirrored() && Links(cells, root, |order|) && a in cells && b in cells
      modifies this`cells, a`color, b`color
      ensures Mirrored() && Links(cells, root, |order|)
      ensures cells == Paint(Paint(old(cells), a, ca, ha), b, cb, hb)
    {
      PaintTwiceKeepsLinks(cells, root, |order|, a, ca, ha, b, cb, hb);
      a.color := ca;
      b.color := cb;
      cells := Paint(Paint(cells, a, ca, ha), b, cb, hb);
    }

    // ---------- RB_INSERT_COLOR ----------

    /** Red uncle: recolour uncle, parent and grandparent. */
    method RecolorFamily(parent: Node, gparent: Node, uncle: Node)
      requires Mirrored() && parent in cells && gparent in cells && uncle in cells
      requires parent != gparent && uncle != parent && uncle != gparent
      modifies this`cells, uncle`color, parent`color, gparent`color
      ensures Mirrored() && cells == RecolorUncle(old(cells), parent, gparent, uncle)
    {
      uncle.color := Black;
      parent.color := Black;
      gparent.color := Red;
      cells := RecolorUncle(cells, parent, gparent, uncle);
    }

    /** Outer grandchild: the parent takes the place and the colour of the grandparent. */
    method RaiseParent(parent: Node, gparent: Node, d: Side)
      requires Mirrored() && Links(cells, root, |order|)
      requires parent in cells && gparent in cells && cells[gparent].Kid(d) == parent
      modifies this`root, this`cells, cells.Keys
      ensures Mirrored() && cells == LiftParent(old(cells), parent, gparent, d)
      ensures root == if old(root) == gparent then parent else old(root)
    {
      SetColors(parent, Black, cells[parent].bh + 1, gparent, Red, cells[gparent].bh - 1);
      RotateTo(gparent, d.Opposite());
    }

    method InsertUncle(ghost elm: Node, parent: Node, gparent: Node, uncle: Node, ghost d: Side)
      requires Mirrored() && InsertState(cells, root, |order|, elm)
      requires RedParent(cells, elm, parent, gparent, d) && cells[gparent].color.Black?
      requires cells[gparent].Kid(d.Opposite()) == uncle && IsRed(cells, uncle)
      modifies this`cells, cells.Keys
      ensures Mirrored() && SamePlaces(old(cells), cells) && InsertState(cells, root, |order|, gparent)
      ensures cells[gparent].lo == old(cells)[gparent].lo && cells[gparent].hi == old(cells)[gparent].hi
    {
      assert Linked(cells, root, |order|, gparent);
      UncleStep(cells, root, |order|, elm, parent, gparent, uncle, d);
      RecolorFamily(parent, gparent, uncle);
    }

    /** Inner grandchild: rotate the parent down, after which the two have swapped roles. */
    method InsertInner(elm: Node, parent: Node, ghost gparent: Node, d: Side)
      requires Mirrored() && InsertState(cells, root, |order|, elm)
      requires RedParent(cells, elm, parent, gparent, d) && cells[gparent].color.Black?
      requires cells[parent].Kid(d.Opposite()) == elm && !IsRed(cells, cells[gparent].Kid(d.Opposite()))
      modifies this`root, this`cells, cells.Keys
      ensures Mirrored() && SamePlaces(old(cells), cells) && InsertState(cells, root, |order|, parent)
      ensures RedParent(cells, parent, elm, gparent, d) && cells[gparent].color.Black?
      ensures cells[elm].Kid(d) == parent && !IsRed(cells, cells[gparent].Kid(d.Opposite()))
    {
      InnerStep(cells, root, |order|, elm, parent, gparent, d);
      assert Linked(cells, root, |order|, parent);
      RotateKeepsHeights(cells, parent, d, cells[gparent].Kid(d.Opposite()));
      RotateKeepsHeights(cells, parent, d, gparent);
      RotateTo(parent, d);
    }

    method InsertOuter(ghost elm: Node, parent: Node, gparent: Node, d: Side)
      requires Mirrored() && InsertState(cells, root, |order|, elm)
      requires RedParent(cells, elm, parent, gparent, d) && cells[gparent].color.Black?
      requires cells[parent].Kid(d) == elm && !IsRed(cells, cells[gparent].Kid(d.Opposite()))
      modifies this`root, this`cells, cells.Keys
      ensures Mirrored() && SamePlaces(old(cells), cells) && InsertState(cells, root, |order|, elm)
      ensures !IsRed(cells, cells[elm].parent)
    {
      OuterStep(cells, root, |order|, elm, parent, gparent, d);
      RaiseParent(parent, gparent, d);
    }

    /** The loop body, for a parent on side `d` of the grandparent. */
    method InsertTurn(e: Node, p: Node, gparent: Node, d: Side) returns (elm: Node)
      requires Mirrored() && InsertState(cells, root, |order|, e)
      requires RedParent(cells, e, p, gparent, d) && cells[gparent].color.Black?
      modifies this`root, this`cells, cells.Keys
      ensures Mirrored() && SamePlaces(old(cells), cells) && InsertState(cells, root, |order|, elm)
      ensures !IsRed(cells, cells[elm].parent) ||
        (elm == gparent && cells[elm].lo == old(cells)[elm].lo && cells[elm].hi == old(cells)[elm].hi)
    {
      elm := e;
      var parent := p;
      assert Linked(cells, root, |order|, gparent) && Linked(cells, root, |order|, parent) && Linked(cells, root, |order|, elm);
      var tmp := if d == L then gparent.right else gparent.left;
      if tmp != null && tmp.color == Red {
        InsertUncle(elm, parent, gparent, tmp, d);
        elm := gparent;
      } else {
        if elm == (if d == L then parent.right else parent.left) {
          InsertInner(elm, parent, gparent, d);
          parent, elm := elm, parent;
        }
        InsertOuter(elm, parent, gparent, d);
      }
    }

    method InsertColor(e: Node)
      requires Mirrored() && InsertState(cells, root, |order|, e)
      modifies this`root, this`cells, cells.Keys
      ensures Mirrored() && SamePlaces(old(cells), cells) && RedBlack(cells, root, |order|)
    {
      var elm: Node := e;
      while elm.parent != null && elm.parent.color == Red
        invariant Mirrored() && SamePlaces(old(cells), cells) && InsertState(cells, root, |order|, elm)
        decreases InsertClimb(cells, |order|, elm)
      {
        var parent := elm.parent;
        assert Linked(cells, root, |order|, elm);
        GrandparentExists(cells, root, |order|, elm);
        var gparent := parent.parent;
        elm := InsertTurn(elm, parent, gparent, if parent == gparent.left then L else R);
        assert Linked(cells, root, |order|, elm);
      }
      assert Linked(cells, root, |order|, elm);
      InsertFinish(elm);
    }

    method InsertFinish(ghost elm: Node)
      requires Mirrored() && InsertState(cells, root, |order|, elm) && !IsRed(cells, cells[elm].parent)
      modifies this`cells, cells.Keys`color
      ensures Mirrored() && SamePlaces(old(cells), cells) && RedBlack(cells, root, |order|)
    {
      InsertDone(cells, root, |order|, elm);
      root.color := Black;
      cells := Paint(cells, root, Black, cells[root].bh + if cells[root].color.Red? then 1 else 0);
    }

    // ---------- RB_REMOVE_COLOR ----------

    method RaiseSibling(parent: Node, sibling: Node, d: Side)
      requires Mirrored() && Links(cells, root, |order|)
      requires parent in cells && sibling in cells && cells[parent].Kid(d.Opposite()) == sibling
      modifies this`root, this`cells, cells.Keys
      ensures Mirrored() && cells == LiftSibling(old(cells), parent, sibling, d)
      ensures root == if old(root) == parent then sibling else old(root)
    {
      SetColors(sibling, Black, cells[sibling].bh + 1, parent, Red, cells[parent].bh - 1);
      RotateTo(parent, d);
    }

    method PaintSiblingRed(ghost parent: Node, sibling: Node)
      requires Mirrored() && parent in cells && sibling in cells && parent != sibling
      modifies this`cells, sibling`color
      ensures Mirrored() && cells == RedenSibling(old(cells), parent, sibling)
    {
      sibling.color := Red;
      cells := RedenSibling(cells, parent, sibling);
    }

    method RaiseNear(sibling: Node, near: Node, d: Side)
      requires Mirrored() && Links(cells, root, |order|)
      requires sibling in cells && near in cells && cells[sibling].Kid(d) == near && sibling != root
      modifies this`root, this`cells, cells.Keys
      ensures Mirrored() && cells == LiftNear(old(cells), sibling, near, d) && root == old(root)
    {
      SetColors(near, Black, cells[near].bh + 1, sibling, Red, cells[sibling].bh - 1);
      RotateTo(sibling, d.Opposite());
    }

    method RaiseFar(parent: Node, sibling: Node, far: Node, d: Side)
      requires Mirrored() && Links(cells, root, |order|)
      requires parent in cells && sibling in cells && far in cells
      requires cells[parent].Kid(d.Opposite()) == sibling && parent != sibling && far != parent && far != sibling
      modifies this`root, this`cells, cells.Keys
      ensures Mirrored() && cells == LiftFar(old(cells), parent, sibling, far, d)
      ensures root == if old(root) == parent then sibling else old(root)
    {
      hide Links, Mirrored;
      RecolorFar(parent, sibling, far, d);
      RotateTo(parent, d);
    }

    /** The colour changes before that rotation. */
    method RecolorFar(parent: Node, sibling: Node, far: Node, ghost d: Side)
      requires Mirrored() && Links(cells, root, |order|)
      requires parent in cells && sibling in cells && far in cells
      requires parent != sibling && far != parent && far != sibling
      modifies this`cells, cells.Keys
      ensures Mirrored() && Links(cells, root, |order|)
      ensures var m := old(cells);
        var m2 := Paint(Paint(m, sibling, m[parent].color, m[parent].bh), parent, Black, Height(m, m[parent].Kid(d)) + 1);
        cells == Paint(m2, far, Black, m[far].bh + 1)
    {
      hide Links;
      SetColors(sibling, parent.color, cells[parent].bh, parent, Black, Height(cells, cells[parent].Kid(d)) + 1);
      PaintKeepsLinks(cells, root, |order|, far, Black, cells[far].bh + 1);
      far.color := Black;
      cells := Paint(cells, far, Black, cells[far].bh + 1);
    }

    method RemoveRedSibling(parent: Node, d: Side, ghost elm: Node?, sibling: Node)
      requires Mirrored() && RemoveState(cells, root, |order|, parent, elm) && Lacks(cells, parent, d, elm)
      requires cells[parent].Kid(d.Opposite()) == sibling && IsRed(cells, sibling) && !IsRed(cells, elm)
      modifies this`root, this`cells, cells.Keys
      ensures Mirrored() && SamePlaces(old(cells), cells)
      ensures RemoveState(cells, root, |order|, parent, elm) && Lacks(cells, parent, d, elm)
      ensures cells[parent].color.Red? && !IsRed(cells, cells[parent].Kid(d.Opposite())) && !IsRed(cells, elm)
    {
      RedSiblingStep(cells, root, |order|, parent, d, elm, sibling);
      SiblingExists(cells, root, |order|, parent, d, elm);
      RaiseSibling(parent, sibling, d);
    }

    method RemoveBlackSibling(parent: Node, ghost d: Side, ghost elm: Node?, sibling: Node)
      requires Mirrored() && RemoveState(cells, root, |order|, parent, elm) && Lacks(cells, parent, d, elm)
      requires cells[parent].Kid(d.Opposite()) == sibling && sibling in cells && cells[sibling].color.Black?
      requires !IsRed(cells, cells[sibling].left) && !IsRed(cells, cells[sibling].right) && !IsRed(cells, elm)
      modifies this`cells, cells.Keys
      ensures Mirrored() && SamePlaces(old(cells), cells)
      ensures RemoveState(cells, root, |order|, cells[parent].parent, parent)
      ensures cells[parent] == old(cells)[parent].(bh := cells[parent].bh)
    {
      SiblingExists(cells, root, |order|, parent, d, elm);
      BlackSiblingStep(cells, root, |order|, parent, d, elm, sibling);
      PaintSiblingRed(parent, sibling);
    }

    method RemoveNear(parent: Node, d: Side, ghost elm: Node?, sibling: Node, near: Node)
      requires Mirrored() && RemoveState(cells, root, |order|, parent, elm) && Lacks(cells, parent, d, elm)
      requires cells[parent].Kid(d.Opposite()) == sibling && sibling in cells && cells[sibling].color.Black?
      requires cells[sibling].Kid(d) == near && IsRed(cells, near) && !IsRed(cells, cells[sibling].Kid(d.Opposite()))
      requires !IsRed(cells, elm)
      modifies this`root, this`cells, cells.Keys
      ensures Mirrored() && SamePlaces(old(cells), cells)
      ensures RemoveState(cells, root, |order|, parent, elm) && Lacks(cells, parent, d, elm) && !IsRed(cells, elm)
      ensures cells[parent].Kid(d.Opposite()) == near && cells[near].color.Black?
      ensures cells[near].Kid(d.Opposite()) == sibling && IsRed(cells, sibling)
    {
      SiblingExists(cells, root, |order|, parent, d, elm);
      NearStep(cells, root, |order|, parent, d, elm, sibling, near);
      RaiseNear(sibling, near, d);
    }

    method RemoveFar(parent: Node, d: Side, ghost elm: Node?, sibling: Node, far: Node)
      requires Mirrored() && RemoveState(cells, root, |order|, parent, elm) && Lacks(cells, parent, d, elm)
      requires cells[parent].Kid(d.Opposite()) == sibling && sibling in cells && cells[sibling].color.Black?
      requires cells[sibling].Kid(d.Opposite()) == far && IsRed(cells, far) && !IsRed(cells, elm)
      modifies this`root, this`cells, cells.Keys
      ensures Mirrored() && SamePlaces(old(cells), cells) && RedBlack(cells, root, |order|)
    {
      FarStep(cells, root, |order|, parent, d, elm, sibling, far);
      RaiseFar(parent, sibling, far, d);
    }

    /** The rotating cases for a black sibling with a red child; the tree is then finished. */
    method RemoveRotations(parent: Node, d: Side, ghost elm: Node?, sibling: Node)
      requires Mirrored() && RemoveState(cells, root, |order|, parent, elm) && Lacks(cells, parent, d, elm)
      requires cells[parent].Kid(d.Opposite()) == sibling && sibling in cells && cells[sibling].color.Black?
      requires IsRed(cells, cells[sibling].left) || IsRed(cells, cells[sibling].right)
      requires !IsRed(cells, elm)
      modifies this`root, this`cells, cells.Keys
      ensures Mirrored() && SamePlaces(old(cells), cells) && RedBlack(cells, root, |order|)
    {
      assert Linked(cells, root, |order|, sibling);
      var near := if d == L then sibling.left else sibling.right;
      var far := if d == L then sibling.right else sibling.left;
      if far == null || far.color == Black {
        RemoveNear(parent, d, elm, sibling, near);
        RemoveFar(parent, d, elm, near, sibling);
      } else {
        RemoveFar(parent, d, elm, sibling, far);
      }
    }

    /** The loop body from its second test on, where the sibling is black. */
    method RemoveBlack(p: Node, e: Node?, d: Side) returns (parent: Node?, elm: Node?)
      requires Mirrored() && RemoveState(cells, root, |order|, p, e) && Lacks(cells, p, d, e)
      requires !IsRed(cells, e) && !IsRed(cells, cells[p].Kid(d.Opposite()))
      modifies this`root, this`cells, cells.Keys
      ensures Mirrored() && SamePlaces(old(cells), cells) && RemoveState(cells, root, |order|, parent, elm)
      ensures RemoveClimb(cells, |order|, root, parent, elm) <
        if old(cells[p].color.Red?) then 1 else 1 + |order| - old(cells[p].hi - cells[p].lo)
    {
      SiblingExists(cells, root, |order|, p, d, e);
      assert Linked(cells, root, |order|, p);
      var tmp := if d == L then p.right else p.left;
      assert Linked(cells, root, |order|, tmp);
      if (tmp.left == null || tmp.left.color == Black) && (tmp.right == null || tmp.right.color == Black) {
        RemoveBlackSibling(p, d, e, tmp);
        elm := p;
        parent := elm.parent;
        assert parent != null ==> Linked(cells, root, |order|, parent);
        assert Linked(cells, root, |order|, elm);
      } else {
        hide RedBlack, RemoveState, Lacks, Links, Linked;
        RemoveRotations(p, d, e, tmp);
        RedBlackStops(cells, root, |order|);
        parent, elm := null, root;
      }
    }

    /** The loop body, for `elm` on side `d` of its parent. */
    method RemoveTurn(p: Node, e: Node?, d: Side) returns (parent: Node?, elm: Node?)
      requires Mirrored() && RemoveState(cells, root, |order|, p, e) && Lacks(cells, p, d, e)
      requires !IsRed(cells, e) && e != root
      modifies this`root, this`cells, cells.Keys
      ensures Mirrored() && SamePlaces(old(cells), cells) && RemoveState(cells, root, |order|, parent, elm)
      ensures RemoveClimb(cells, |order|, root, parent, elm) < old(RemoveClimb(cells, |order|, root, p, e))
    {
      SiblingExists(cells, root, |order|, p, d, e);
      assert Linked(cells, root, |order|, p);
      var tmp := if d == L then p.right else p.left;
      if tmp.color == Red {
        RemoveRedSibling(p, d, e, tmp);
      }
      parent, elm := RemoveBlack(p, e, d);
    }

    method RemoveColor(p: Node?, e: Node?)
      requires Mirrored() && RemoveState(cells, root, |order|, p, e)
      modifies this`root, this`cells, cells.Keys
      ensures Mirrored() && SamePlaces(old(cells), cells) && RedBlack(cells, root, |order|)
    {
      var parent, elm := p, e;
      assert p != null ==> Linked(cells, root, |order|, p);
      while (elm == null || elm.color == Black) && elm != root
        invariant Mirrored() && SamePlaces(old(cells), cells) && RemoveState(cells, root, |order|, parent, elm)
        invariant elm != null ==> elm in cells
        decreases RemoveClimb(cells, |order|, root, parent, elm)
      {
        assert Linked(cells, root, |order|, parent);
        parent, elm := RemoveTurn(parent, elm, if parent.left == elm then L else R);
        assert parent != null ==> Linked(cells, root, |order|, parent);
      }
      if elm != null {
        RemoveFinish(parent, elm);
      }
    }

    method RemoveFinish(ghost parent: Node?, elm: Node)
      requires Mirrored() && RemoveState(cells, root, |order|, parent, elm) && elm in cells
      requires IsRed(cells, elm) || elm == root
      modifies this`cells, elm`color
      ensures Mirrored() && SamePlaces(old(cells), cells) && RedBlack(cells, root, |order|)
    {
      RemoveDone(cells, root, |order|, parent, elm);
      elm.color := Black;
      cells := Paint(cells, elm, Black, cells[elm].bh + if cells[elm].color.Red? then 1 else 0);
    }

    // ---------- RB_REMOVE ----------

    /** Puts `child` in the place of `x` below the parent of `x`. */
    method Bypass(x: Node, child: Node?)
      requires x.parent != x && x != child && (child != null ==> child != x.parent)
      modifies this`root, child, x.parent
      ensures root == if old(x.parent) == null then child else old(root)
      ensures child != null ==>
        child.left == old(child.left) && child.right == old(child.right)
        && child.parent == x.parent && child.color == old(child.color)
      ensures var p := x.parent; p != null ==>
        && p.parent == old(x.parent.parent) && p.color == old(x.parent.color)
        && p.left == (if old(x.parent.left) == x then child else old(x.parent.left))
        && p.right == (if old(x.parent.left) == x then old(x.parent.right) else child)
    {
      var parent := x.parent;
      if child != null {
        child.parent := parent;
      }
      if parent != null {
        if parent.left == x {
          parent.left := child;
        } else {
          parent.right := child;
        }
      } else {
        root := child;
      }
    }

    /** Takes `x`, which has at most one child, out of the tree. */
    method Unlink(x: Node, child: Node?)
      requires Shape() && x in cells && (x.left == null || x.right == null) && child == OnlyKid(cells, x)
      modifies this, cells.Keys - {x}
      ensures Mirrored() && cells == Detach(old(cells), x) && root == DetachedRoot(old(cells), old(root), x)
      ensures var k := old(cells)[x].pos; order == old(order)[..k] + old(order)[k + 1..]
    {
      ghost var before, top, k := cells, root, cells[x].pos;
      assert Linked(cells, root, |order|, x);
      assert x.parent != null ==> Linked(cells, root, |order|, x.parent);
      Bypass(x, child);
      cells, order := Detach(before, x), order[..k] + order[k + 1..];
      forall n | n in cells ensures Mirrors(n, cells[n]) {
        DetachTouches(before, top, |order| + 1, x, n);
      }
    }

    /** Hands the links and the colour of `x` to `e`. */
    method Adopt(x: Node, e: Node)
      requires e != x && x.left != null && x.left != x && x.right != x && x.parent != x
      requires e != x.left && e != x.right && e != x.parent
      requires x.left != x.right && x.parent != x.left && (x.parent != null ==> x.parent != x.right)
      modifies this`root, e, x.left, x.right, x.parent
      ensures root == if x.parent == null then e else old(root)
      ensures e.left == x.left && e.right == x.right && e.parent == x.parent && e.color == x.color
      ensures var l := x.left;
        l.parent == e && l.left == old(x.left.left) && l.right == old(x.left.right) && l.color == old(x.left.color)
      ensures var r := x.right; r != null ==>
        r.parent == e && r.left == old(x.right.left) && r.right == old(x.right.right) && r.color == old(x.right.color)
      ensures var p := x.parent; p != null ==>
        && p.parent == old(x.parent.parent) && p.color == old(x.parent.color)
        && p.left == (if old(x.parent.left) == x then e else old(x.parent.left))
        && p.right == (if old(x.parent.left) == x then old(x.parent.right) else e)
    {
      e.left, e.right, e.parent, e.color := x.left, x.right, x.parent, x.color;
      if x.parent != null {
        if x.parent.left == x {
          x.parent.left := e;
        } else {
          x.parent.right := e;
        }
      } else {
        root := e;
      }
      x.left.parent := e;
      if x.right != null {
        x.right.parent := e;
      }
    }

    /** `e`, outside the tree, takes the place of `x`, which has a left child. */
    method TakePlace(x: Node, e: Node)
      requires Shape() && x in cells && e !in cells && x.left != null
      modifies this, cells.Keys - {x}, e
      ensures Mirrored() && cells == Replace(old(cells), x, e) && root == Renamed(x, e, old(root))
      ensures order == old(order)[old(cells)[x].pos := e]
    {
      ghost var before, top := cells, root;
      assert Linked(cells, root, |order|, x) && Linked(cells, root, |order|, x.left);
      assert x.right != null ==> Linked(cells, root, |order|, x.right);
      assert x.parent != null ==> Linked(cells, root, |order|, x.parent);
      Adopt(x, e);
      cells, order := Replace(before, x, e), order[cells[x].pos := e];
      forall n | n in cells && n != e ensures Mirrors(n, cells[n]) {
        ReplaceTouches(before, top, |order|, x, e, n);
      }
    }

    /** Recolours after `color` was taken out above `child`. */
    method Rebalance(color: Color, parent: Node?, child: Node?)
      requires Mirrored() && Indexed(cells, order)
      requires color.Black? ==> RemoveState(cells, root, |order|, parent, child)
      requires color.Red? ==> RedBlack(cells, root, |order|)
      modifies this`root, this`cells, cells.Keys
      ensures Mirrored() && RedBlack(cells, root, |order|) && Indexed(cells, order) && cells.Keys == old(cells.Keys)
    {
      if color == Black {
        RemoveColor(parent, child);
      }
    }

    /** RB_REMOVE of a node with at most one child. */
    method RemoveOuter(elm: Node)
      requires Mirrored() && RedBlack(cells, root, |order|) && Indexed(cells, order)
      requires elm in cells && (elm.left == null || elm.right == null)
      modifies this, cells.Keys
      ensures Mirrored() && RedBlack(cells, root, |order|) && Indexed(cells, order)
      ensures cells.Keys == old(cells.Keys) - {elm}
      ensures var k := old(cells)[elm].pos; order == old(order)[..k] + old(order)[k + 1..]
    {
      var child := if elm.left == null then elm.right else elm.left;
      var parent, color := elm.parent, elm.color;
      assert child == OnlyKid(cells, elm) && parent == cells[elm].parent && color == cells[elm].color && Shape();
      DetachResult(cells, root, order, elm);
      hide RedBlack, RemoveState, Links, Indexed, Mirrored, Detach;
      Unlink(elm, child);
      Rebalance(color, parent, child);
    }

    /** The leftmost node below the right child of `elm`: its successor in the order. */
    method Successor(elm: Node) returns (s: Node)
      requires Mirrored() && Links(cells, root, |order|) && elm in cells && elm.right != null
      ensures s in cells && s.left == null && cells[s].pos == cells[elm].pos + 1
    {
      assert Linked(cells, root, |order|, elm);
      s := elm.right;
      assert Linked(cells, root, |order|, s);
      while s.left != null
        invariant s in cells && Linked(cells, root, |order|, s) && cells[s].lo == cells[elm].pos + 1
        decreases cells[s].hi
      {
        s := s.left;
        assert Linked(cells, root, |order|, s);
      }
    }

    /** Unlinks `s`, the successor of `elm`, and puts it in the place of `elm`. */
    method Exchange(elm: Node, s: Node)
      requires Mirrored() && Succeeds(cells, root, order, elm, s)
      modifies this, cells.Keys
      ensures elm in Detach(old(cells), s) && cells == Replace(Detach(old(cells), s), elm, s)
      ensures root == Renamed(elm, s, DetachedRoot(old(cells), old(root), s))
      ensures Mirrored()
      ensures var k := old(cells)[elm].pos; order == (old(order)[..k + 1] + old(order)[k + 2..])[k := s]
    {
      SuccessorDetached(cells, root, order, elm, s);
      Unlink(s, s.right);
      TakePlace(elm, s);
    }

    method Vacate(elm: Node, s: Node)
      requires Mirrored() && Succeeds(cells, root, order, elm, s)
      modifies this, cells.Keys
      ensures Mirrored() && Indexed(cells, order) && cells.Keys == old(cells.Keys) - {elm}
      ensures old(cells[s].color.Red?) ==> RedBlack(cells, root, |order|)
      ensures old(cells[s].color.Black?) ==>
        RemoveState(cells, root, |order|, Renamed(elm, s, old(cells[s].parent)), old(cells[s].right))
      ensures var k := old(cells)[elm].pos; order == old(order)[..k] + old(order)[k + 1..]
    {
      ExchangeResult(cells, root, order, elm, s);
      hide RedBlack, RemoveState, Indexed, Links, Linked, Replace, Detach;
      Exchange(elm, s);
    }

    /** RB_REMOVE of a node with two children. */
    method RemoveInner(elm: Node)
      requires Mirrored() && RedBlack(cells, root, |order|) && Indexed(cells, order)
      requires elm in cells && elm.left != null && elm.right != null
      modifies this, cells.Keys
      ensures Mirrored() && RedBlack(cells, root, |order|) && Indexed(cells, order)
      ensures cells.Keys == old(cells.Keys) - {elm}
      ensures var k := old(cells)[elm].pos; order == old(order)[..k] + old(order)[k + 1..]
    {
      var s := Successor(elm);
      var child, parent, color := s.right, s.parent, s.color;
      if parent == elm {
        parent := s;
      }
      Vacate(elm, s);
      Rebalance(color, parent, child);
    }

    method Remove(elm: Node) returns (removed: Node, ghost k: nat)
      requires Valid() && elm in cells
      modifies this, cells.Keys
      ensures Valid() && removed == elm
      ensures k < |old(order)| && old(order)[k] == elm && order == old(order)[..k] + old(order)[k + 1..]
      ensures cells.Keys == old(cells.Keys) - {elm}
    {
      removed, k := elm, cells[elm].pos;
      RemoveKeepsSorted(cmp, order, k);
      if elm.left != null && elm.right != null {
        RemoveInner(elm);
      } else {
        RemoveOuter(elm);
      }
    }

    // ---------- RB_INSERT ----------

    /** Makes `elm` a red leaf on the empty side `d` of `parent`. */
    method Link(elm: Node, parent: Node, d: Side)
      requires Mirrored() && parent in cells && cells[parent].Kid(d) == null && elm !in cells
      modifies this`cells, this`order, elm, parent
      ensures Mirrored() && cells == Attach(old(cells), parent, d, elm)
      ensures order == old(order)
    {
      elm.parent := parent;
      elm.left, elm.right := null, null;
      elm.color := Red;
      if d == L {
        parent.left := elm;
      } else {
        parent.right := elm;
      }
      cells := Attach(cells, parent, d, elm);
    }

    /** The first node of an empty tree. */
    method Plant(elm: Node)
      requires cells == map[] && order == []
      modifies this, elm
      ensures Mirrored() && cells.Keys == {elm} && order == [elm] && Indexed(cells, order)
      ensures RedBlack(cells, root, 1)
    {
      elm.parent := null;
      elm.left, elm.right := null, null;
      elm.color := Red;
      root := elm;
      cells := map[elm := Cell(null, null, null, Red, 0, 1, 0, 0)];
      order := [elm];
      assert InsertState(cells, root, |order|, elm) by {
        assert Linked(cells, root, |order|, elm);
      }
      InsertColor(elm);
    }

    method AttachAndColor(elm: Node, parent: Node, d: Side)
      requires Mirrored() && RedBlack(cells, root, |order|) && Indexed(cells, order)
      requires parent in cells && cells[parent].Kid(d) == null && elm !in cells
      modifies this, cells.Keys, elm
      ensures Mirrored() && RedBlack(cells, root, |order|) && Indexed(cells, order)
      ensures cells.Keys == old(cells.Keys) + {elm}
      ensures var k := AttachIndex(old(cells), parent, d);
        0 <= k <= |old(order)| && order == old(order)[..k] + [elm] + old(order)[k..]
    {
      hide RedBlack, InsertState, Mirrored, Indexed;
      ghost var k := AttachIndex(cells, parent, d);
      AttachState(cells, root, order, parent, d, elm);
      AttachKeepsIndexed(cells, order, parent, d, elm);
      Link(elm, parent, d);
      order := order[..k] + [elm] + order[k..];
      ghost var attached := cells;
      InsertColor(elm);
      SamePlacesIndexed(attached, cells, order);
    }

    /** The descent of RB_INSERT: an equal node, or the free place where the key belongs. */
    method Locate(key: Key) returns (found: Node?, parent: Node?, comp: int, ghost k: nat)
      requires Valid()
      ensures found != null ==> found in order && cmp(key, found.key) == 0
      ensures found == null ==> Brackets(cmp, order, key, k, k)
      ensures found == null && parent == null ==> root == null
      ensures found == null && parent != null ==> parent in cells && comp != 0
      ensures var d := if comp < 0 then L else R;
        found == null && parent != null ==> cells[parent].Kid(d) == null && k == AttachIndex(cells, parent, d)
    {
      var tmp := root;
      parent, comp := null, 0;
      ghost var lo, hi := 0, |order|;
      while tmp != null
        invariant tmp == null ==> lo == hi
        invariant tmp != null ==> tmp in cells && cells[tmp].lo == lo && cells[tmp].hi == hi
        invariant Brackets(cmp, order, key, lo, hi)
        invariant parent == null ==> tmp == root
        invariant parent != null ==> parent in cells && comp != 0
        invariant parent != null && comp < 0 ==> parent.left == tmp && hi == cells[parent].pos
        invariant parent != null && comp > 0 ==> parent.right == tmp && lo == cells[parent].pos + 1
        decreases hi - lo
      {
        assert Linked(cells, root, |order|, tmp);
        parent := tmp;
        comp := cmp(key, parent.key);
        BracketsNarrow(cmp, order, key, cells[tmp].pos);
        if comp < 0 {
          tmp, hi := tmp.left, cells[tmp].pos;
        } else if comp > 0 {
          tmp, lo := tmp.right, cells[tmp].pos + 1;
        } else {
          return tmp, parent, comp, 0;
        }
      }
      return null, parent, comp, lo;
    }

    method Insert(elm: Node) returns (found: Node?, ghost k: nat)
      requires Valid()
      modifies this, cells.Keys, elm
      ensures Valid()
      ensures found == null <==> forall n :: n in old(order) ==> cmp(elm.key, n.key) != 0
      ensures found != null ==> found in old(order) && cmp(elm.key, found.key) == 0
      ensures found != null ==> cells == old(cells) && order == old(order) && root == old(root) && unchanged(elm)
      ensures found == null ==> elm !in old(order) && cells.Keys == old(cells.Keys) + {elm}
      ensures found == null ==> k <= |old(order)| && order == old(order)[..k] + [elm] + old(order)[k..]
    {
      var parent, comp;
      found, parent, comp, k := Locate(elm.key);
      if found == null {
        InsertKeepsSorted(cmp, order, elm, k);
        if parent != null {
          AttachAndColor(elm, parent, if comp < 0 then L else R);
        } else {
          Plant(elm);
        }
      }
    }

    // ---------- RB_FIND, RB_NFIND ----------

    method Find(key: Key) returns (found: Node?)
      requires Valid()
      ensures found != null ==> found in order && cmp(key, found.key) == 0
      ensures found == null ==> forall n :: n in order ==> cmp(key, n.key) != 0
    {
      var tmp := root;
      ghost var lo, hi := 0, |order|;
      while tmp != null
        invariant tmp == null ==> lo == hi
        invariant tmp != null ==> tmp in cells && cells[tmp].lo == lo && cells[tmp].hi == hi
        invariant Brackets(cmp, order, key, lo, hi)
        decreases hi - lo
      {
        assert Linked(cells, root, |order|, tmp);
        var comp := cmp(key, tmp.key);
        BracketsNarrow(cmp, order, key, cells[tmp].pos);
        if comp < 0 {
          tmp, hi := tmp.left, cells[tmp].pos;
        } else if comp > 0 {
          tmp, lo := tmp.right, cells[tmp].pos + 1;
        } else {
          return tmp;
        }
      }
      return null;
    }

    /** The first node of the order that is not below the key. */
    method NFind(key: Key) returns (res: Node?)
      requires Valid()
      ensures res == null ==> forall n :: n in order ==> cmp(key, n.key) > 0
      ensures res != null ==> res in cells && cmp(key, res.key) <= 0
      ensures res != null ==> forall i :: 0 <= i < cells[res].pos ==> cmp(key, order[i].key) > 0
    {
      var tmp := root;
      res := null;
      ghost var lo, hi := 0, |order|;
      while tmp != null
        invariant tmp == null ==> lo == hi
        invariant tmp != null ==> tmp in cells && cells[tmp].lo == lo && cells[tmp].hi == hi
        invariant Brackets(cmp, order, key, lo, hi)
        invariant if hi < |order| then res == order[hi] else res == null
        decreases hi - lo
      {
        assert Linked(cells, root, |order|, tmp);
        var comp := cmp(key, tmp.key);
        BracketsNarrow(cmp, order, key, cells[tmp].pos);
        if comp < 0 {
          res := tmp;
          tmp, hi := tmp.left, cells[tmp].pos;
        } else if comp > 0 {
          tmp, lo := tmp.right, cells[tmp].pos + 1;
        } else {
          EqualKeyAbove(cmp, order, key, cells[tmp].pos);
          return tmp;
        }
      }
    }

    // ---------- RB_NEXT, RB_PREV, RB_MINMAX, RB_FOREACH ----------

    method Next(elm: Node) returns (next: Node?)
      requires Shape() && elm in cells
      ensures var k := cells[elm].pos + 1; next == if k < |order| then order[k] else null
    {
      assert Linked(cells, root, |order|, elm);
      if elm.right != null {
        next := Successor(elm);
      } else {
        var cur: Node := elm;
        while cur.parent != null && cur == cur.parent.right
          invariant cur in cells && Linked(cells, root, |order|, cur) && cells[cur].hi == cells[elm].pos + 1
          decreases cells[cur].lo
        {
          cur := cur.parent;
          assert Linked(cells, root, |order|, cur);
        }
        next := cur.parent;
        assert next != null ==> Linked(cells, root, |order|, next);
      }
    }

    method Prev(elm: Node) returns (prev: Node?)
      requires Shape() && elm in cells
      ensures var k := cells[elm].pos - 1; prev == if k >= 0 then order[k] else null
    {
      assert Linked(cells, root, |order|, elm);
      if elm.left != null {
        prev := elm.left;
        assert Linked(cells, root, |order|, prev);
        while prev.right != null
          invariant prev in cells && Linked(cells, root, |order|, prev) && cells[prev].hi == cells[elm].pos
          decreases -cells[prev].lo + |order|
        {
          prev := prev.right;
          assert Linked(cells, root, |order|, prev);
        }
      } else {
        var cur: Node := elm;
        while cur.parent != null && cur == cur.parent.left
          invariant cur in cells && Linked(cells, root, |order|, cur) && cells[cur].lo == cells[elm].pos
          decreases |order| - cells[cur].hi
        {
          cur := cur.parent;
          assert Linked(cells, root, |order|, cur);
        }
        prev := cur.parent;
        assert prev != null ==> Linked(cells, root, |order|, prev);
      }
    }

    /** RB_MIN for a negative `val`, RB_MAX otherwise. */
    method MinMax(val: int) returns (end: Node?)
      requires Shape()
      ensures order == [] ==> end == null
      ensures order != [] ==> end == if val < 0 then order[0] else order[|order| - 1]
    {
      var tmp := root;
      end := null;
      while tmp != null
        invariant end == null ==> tmp == root
        invariant end != null ==> end in cells && Linked(cells, root, |order|, end)
        invariant end != null && val < 0 ==> cells[end].lo == 0 && tmp == end.left
        invariant end != null && val >= 0 ==> cells[end].hi == |order| && tmp == end.right
        invariant tmp != null ==> tmp in cells
        decreases if tmp == null then 0 else cells[tmp].hi - cells[tmp].lo
      {
        end := tmp;
        assert Linked(cells, root, |order|, tmp);
        tmp := if val < 0 then tmp.left else tmp.right;
        assert tmp != null ==> Linked(cells, root, |order|, tmp);
      }
    }

    /** RB_FOREACH: the nodes in the order in which the loop visits them. */
    method ForEach() returns (visited: seq<Node>)
      requires Shape()
      ensures visited == order
    {
      visited := [];
      var x := MinMax(-1);
      while x != null
        invariant |visited| <= |order| && visited == order[..|visited|]
        invariant x == if |visited| < |order| then order[|visited|] else null
        decreases |order| - |visited|
      {
        visited := visited + [x];
        x := Next(x);
      }
    }
  }
}
