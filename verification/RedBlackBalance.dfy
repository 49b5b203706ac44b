/**
 The colour arguments behind the two rebalancing loops: which condition each loop keeps while
 it climbs, and how every case of its body either moves the remaining fault closer to the
 root or removes it.
 */
module RedBlackBalance {
  import opened RedBlackCells

  /** Recolouring `n`, with the black height that goes with it. */
  ghost function Paint(m: Cells, n: Node, color: Color, bh: int): Cells
    requires n in m
  {
    m[n := m[n].(color := color, bh := bh)]
  }

  lemma PaintKeepsLinks(m: Cells, root: Node?, len: int, n: Node, color: Color, bh: int)
    requires Links(m, root, len) && n in m
    ensures Links(Paint(m, n, color, bh), root, len)
  {
    var m' := Paint(m, n, color, bh);
    forall x | x in m' ensures Linked(m', root, len, x) {
      assert Linked(m, root, len, x);
    }
  }

  lemma PaintTwiceKeepsLinks(m: Cells, root: Node?, len: int, a: Node, ca: Color, ha: int, b: Node, cb: Color, hb: int)
    requires Links(m, root, len) && a in m && b in m
    ensures Links(Paint(Paint(m, a, ca, ha), b, cb, hb), root, len)
  {
    PaintKeepsLinks(m, root, len, a, ca, ha);
    PaintKeepsLinks(Paint(m, a, ca, ha), root, len, b, cb, hb);
  }

  /** A rotation changes no colour and no black height. */
  lemma RotateKeepsHeights(m: Cells, x: Node, d: Side, n: Node?)
    requires CanRotate(m, x, d)
    ensures Height(Rotate(m, x, d), n) == Height(m, n) && IsRed(Rotate(m, x, d), n) == IsRed(m, n)
  {
  }

  /** Away from the two rotated nodes, only a link to `x` changes, to the node now in its place. */
  lemma RotateBalance(m: Cells, x: Node, d: Side, n: Node)
    requires CanRotate(m, x, d) && n in m && x != Pivot(m, x, d)
    requires var y := Pivot(m, x, d);
      n != x && n != y && m[n].bh >= 0
      && var l, r := (if m[n].left == x then y else m[n].left), (if m[n].right == x then y else m[n].right);
      Height(m, l) == Height(m, r) && m[n].bh == Height(m, l) + (if m[n].color.Black? then 1 else 0)
    ensures Balanced(Rotate(m, x, d), n)
  {
  }

  /** The two rotated nodes themselves. */
  lemma RotateBalancePair(m: Cells, x: Node, d: Side, h: int)
    requires CanRotate(m, x, d) && x != Pivot(m, x, d) && h >= 0
    requires var y := Pivot(m, x, d);
      Height(m, m[x].Kid(d)) == Height(m, m[y].Kid(d)) == h
      && m[x].bh == h + (if m[x].color.Black? then 1 else 0)
      && Height(m, m[y].Kid(d.Opposite())) == m[x].bh && m[y].bh == m[x].bh + (if m[y].color.Black? then 1 else 0)
    ensures Balanced(Rotate(m, x, d), x) && Balanced(Rotate(m, x, d), Pivot(m, x, d))
  {
  }

  ghost predicate AllBalanced(m: Cells, except: Node?) {
    forall n {:trigger Balanced(m, n)} :: n in m && n != except ==> Balanced(m, n)
  }

  ghost predicate AllNoRedKid(m: Cells, except: Node?) {
    forall n {:trigger NoRedKid(m, n, except)} :: n in m && n != except ==> NoRedKid(m, n, except)
  }

  // ---------- Insertion ----------

  /** While RB_INSERT_COLOR climbs: all is well but that the red `elm` may have a red parent. */
  ghost predicate InsertState(m: Cells, root: Node?, len: int, elm: Node) {
    && Links(m, root, len)
    && elm in m && m[elm].color.Red?
    && AllBalanced(m, null)
    && AllNoRedKid(m, elm) && NoRedKid(m, elm, null)
    && (root != elm ==> BlackRoot(m, root))
  }

  /** `p` is the red parent of `elm`, on side `d` of the grandparent `g`. */
  ghost predicate RedParent(m: Cells, elm: Node, p: Node, g: Node, d: Side) {
    && elm in m && p in m && g in m
    && m[elm].parent == p && m[p].color.Red? && m[p].parent == g && m[g].Kid(d) == p
  }

  /** A red parent is never the root, so the grandparent exists; and it is black. */
  lemma GrandparentExists(m: Cells, root: Node?, len: int, elm: Node)
    requires InsertState(m, root, len, elm)
    requires m[elm].parent != null && IsRed(m, m[elm].parent)
    ensures var p := m[elm].parent; p in m && m[p].parent != null && m[p].parent in m
    ensures var p := m[elm].parent; m[m[p].parent].color.Black?
    ensures var p := m[elm].parent; var g := m[p].parent; m[g].left == p || m[g].right == p
    ensures var g := m[m[elm].parent].parent; m[g].hi - m[g].lo > m[elm].hi - m[elm].lo
  {
    assert Linked(m, root, len, elm);
    var p := m[elm].parent;
    assert Linked(m, root, len, p);
    var g := m[p].parent;
    if g == null {
      assert false;
    } else {
      assert Linked(m, root, len, g) && NoRedKid(m, g, elm);
    }
  }

  /** Red uncle: recolour and climb two levels. */
  ghost function RecolorUncle(m: Cells, p: Node, g: Node, u: Node): Cells
    requires p in m && g in m && u in m
  {
    Paint(Paint(Paint(m, u, Black, m[u].bh + 1), p, Black, m[p].bh + 1), g, Red, m[g].bh)
  }

  lemma UncleStep(m: Cells, root: Node?, len: int, elm: Node, p: Node, g: Node, u: Node, d: Side)
    requires InsertState(m, root, len, elm) && RedParent(m, elm, p, g, d)
    requires m[g].Kid(d.Opposite()) == u && u in m && m[u].color.Red?
    requires u != p && g != p && g != u
    ensures InsertState(RecolorUncle(m, p, g, u), root, len, g)
  {
    var m' := RecolorUncle(m, p, g, u);
    PaintTwiceKeepsLinks(m, root, len, u, Black, m[u].bh + 1, p, Black, m[p].bh + 1);
    PaintKeepsLinks(Paint(Paint(m, u, Black, m[u].bh + 1), p, Black, m[p].bh + 1), root, len, g, Red, m[g].bh);
    assert Linked(m, root, len, g) && Linked(m, root, len, p) && Linked(m, root, len, u);
    assert Balanced(m, g) && Balanced(m, p) && Balanced(m, u);
    assert NoRedKid(m, g, elm);
    forall n | n in m' ensures Balanced(m', n) && (n != g ==> NoRedKid(m', n, g)) {
      assert Linked(m, root, len, n) && Balanced(m, n) && (n != elm ==> NoRedKid(m, n, elm));
      UncleStepAt(m, root, len, elm, p, g, u, d, n);
    }
  }

  lemma UncleStepAt(m: Cells, root: Node?, len: int, elm: Node, p: Node, g: Node, u: Node, d: Side, n: Node)
    requires RedParent(m, elm, p, g, d) && m[g].Kid(d.Opposite()) == u && u in m && m[u].color.Red? && n in m
    requires u != p && g != p && g != u && m[g].color.Black? && NoRedKid(m, elm, null)
    requires Linked(m, root, len, p) && Linked(m, root, len, u) && Linked(m, root, len, g) && Linked(m, root, len, n)
    requires Balanced(m, g) && Balanced(m, p) && Balanced(m, u)
    requires Balanced(m, n) && (n != elm ==> NoRedKid(m, n, elm))
    ensures var m' := RecolorUncle(m, p, g, u); Balanced(m', n) && (n != g ==> NoRedKid(m', n, g))
  {
  }

  /** Inner grandchild: rotate the parent so that the two red nodes line up on side `d`. */
  lemma InnerStep(m: Cells, root: Node?, len: int, elm: Node, p: Node, g: Node, d: Side)
    requires InsertState(m, root, len, elm) && RedParent(m, elm, p, g, d)
    requires m[p].Kid(d.Opposite()) == elm
    ensures CanRotate(m, p, d)
    ensures var m' := Rotate(m, p, d);
      InsertState(m', root, len, p) && RedParent(m', p, elm, g, d) && m'[elm].Kid(d) == p
      && m'[g].Kid(d.Opposite()) == m[g].Kid(d.Opposite())
  {
    assert Linked(m, root, len, g) && Linked(m, root, len, p) && Linked(m, root, len, elm);
    assert Balanced(m, p) && Balanced(m, elm) && NoRedKid(m, p, elm);
    var m' := Rotate(m, p, d);
    RotateKeepsLinks(m, root, len, p, d);
    forall n | n in m' ensures Balanced(m', n) && NoRedKid(m', n, p) {
      assert Linked(m, root, len, n) && Balanced(m, n) && (n != elm ==> NoRedKid(m, n, elm));
      InnerStepAt(m, root, len, elm, p, g, d, n);
    }
  }

  lemma InnerStepAt(m: Cells, root: Node?, len: int, elm: Node, p: Node, g: Node, d: Side, n: Node)
    requires RedParent(m, elm, p, g, d) && m[p].Kid(d.Opposite()) == elm && m[elm].color.Red? && n in m
    requires Linked(m, root, len, p) && Linked(m, root, len, elm) && Linked(m, root, len, n)
    requires Balanced(m, p) && Balanced(m, elm) && Balanced(m, n)
    requires NoRedKid(m, p, elm) && NoRedKid(m, elm, null) && NoRedKid(m, n, elm)
    ensures var m' := Rotate(m, p, d); Balanced(m', n) && NoRedKid(m', n, p)
  {
  }

  /** Outer grandchild: swap the colours of parent and grandparent and rotate the grandparent. */
  ghost function LiftParent(m: Cells, p: Node, g: Node, d: Side): Cells
    requires p in m && g in m && m[g].Kid(d) == p
  {
    Rotate(Paint(Paint(m, p, Black, m[p].bh + 1), g, Red, m[g].bh - 1), g, d.Opposite())
  }

  lemma LiftParentKeepsLinks(m: Cells, root: Node?, len: int, p: Node, g: Node, d: Side)
    requires Links(m, root, len) && p in m && g in m && m[g].Kid(d) == p
    ensures Links(LiftParent(m, p, g, d), if root == g then p else root, len)
  {
    PaintTwiceKeepsLinks(m, root, len, p, Black, m[p].bh + 1, g, Red, m[g].bh - 1);
    RotateKeepsLinks(Paint(Paint(m, p, Black, m[p].bh + 1), g, Red, m[g].bh - 1), root, len, g, d.Opposite());
  }

  lemma OuterStep(m: Cells, root: Node?, len: int, elm: Node, p: Node, g: Node, d: Side)
    requires InsertState(m, root, len, elm) && RedParent(m, elm, p, g, d)
    requires m[p].Kid(d) == elm && !IsRed(m, m[g].Kid(d.Opposite())) && g != p && m[g].color.Black?
    ensures var m' := LiftParent(m, p, g, d);
      InsertState(m', if root == g then p else root, len, elm) && m'[elm].parent == p && m'[p].color.Black?
  {
    assert Linked(m, root, len, g) && Linked(m, root, len, p) && Linked(m, root, len, elm);
    assert Balanced(m, g) && Balanced(m, p) && Balanced(m, elm) && NoRedKid(m, p, elm);
    LiftParentKeepsLinks(m, root, len, p, g, d);
    var m' := LiftParent(m, p, g, d);
    forall n | n in m' ensures Balanced(m', n) && NoRedKid(m', n, elm) {
      assert Linked(m, root, len, n) && Balanced(m, n) && (n != elm ==> NoRedKid(m, n, elm));
      OuterStepAt(m, root, len, elm, p, g, d, n);
    }
  }

  lemma OuterStepAt(m: Cells, root: Node?, len: int, elm: Node, p: Node, g: Node, d: Side, n: Node)
    requires RedParent(m, elm, p, g, d) && m[p].Kid(d) == elm && n in m
    requires !IsRed(m, m[g].Kid(d.Opposite())) && g != p && m[g].color.Black?
    requires Linked(m, root, len, g) && Linked(m, root, len, p) && Linked(m, root, len, n)
    requires Balanced(m, g) && Balanced(m, p) && Balanced(m, n)
    requires NoRedKid(m, p, elm) && NoRedKid(m, n, elm)
    ensures var m' := LiftParent(m, p, g, d); Balanced(m', n) && NoRedKid(m', n, elm)
  {
  }

  /** How far `elm` still has to climb: nothing unless its parent is red. */
  ghost function InsertClimb(m: Cells, len: int, elm: Node): int
    requires elm in m
  {
    if IsRed(m, m[elm].parent) then 1 + len - (m[elm].hi - m[elm].lo) else 0
  }

  /** Once the parent is black or absent, painting the root black finishes the tree. */
  lemma InsertDone(m: Cells, root: Node?, len: int, elm: Node)
    requires InsertState(m, root, len, elm) && !IsRed(m, m[elm].parent)
    ensures root != null && root in m
    ensures RedBlack(Paint(m, root, Black, m[root].bh + (if m[root].color.Red? then 1 else 0)), root, len)
  {
    assert Linked(m, root, len, elm);
    var bh := m[root].bh + (if m[root].color.Red? then 1 else 0);
    var m' := Paint(m, root, Black, bh);
    PaintKeepsLinks(m, root, len, root, Black, bh);
    assert Linked(m, root, len, root) && Balanced(m, root);
    forall n | n in m' ensures Balanced(m', n) && NoRedKid(m', n, null) {
      assert Linked(m, root, len, n) && Balanced(m, n) && (n != elm ==> NoRedKid(m, n, elm));
      InsertDoneAt(m, root, len, elm, n);
    }
  }

  lemma InsertDoneAt(m: Cells, root: Node, len: int, elm: Node, n: Node)
    requires root in m && elm in m && n in m && m[root].parent == null
    requires (elm != root ==> m[root].color.Black?) && NoRedKid(m, elm, null) && !IsRed(m, m[elm].parent)
    requires Linked(m, root, len, n) && Balanced(m, n) && (n != elm ==> NoRedKid(m, n, elm))
    ensures var m' := Paint(m, root, Black, m[root].bh + (if m[root].color.Red? then 1 else 0));
      Balanced(m', n) && NoRedKid(m', n, null)
  {
  }

  // ---------- Removal ----------

  /** Below `p`, paths through `elm` on side `d` hold one black node less than those on the other side. */
  ghost predicate Lacks(m: Cells, p: Node, d: Side, elm: Node?) {
    && p in m && m[p].Kid(d) == elm
    && Height(m, elm) >= 0
    && Height(m, m[p].Kid(d.Opposite())) == Height(m, elm) + 1
    && m[p].bh == Height(m, elm) + 1 + (if m[p].color.Black? then 1 else 0)
  }

  /**
   While RB_REMOVE_COLOR climbs: the only unbalanced node is `parent`, whose child `elm`
   (possibly NULL) is one black node short; only around `elm` can two red nodes meet.
   */
  ghost predicate RemoveState(m: Cells, root: Node?, len: int, parent: Node?, elm: Node?) {
    && Links(m, root, len)
    && (parent == null ==> elm == root)
    && (parent != null ==> Lacks(m, parent, L, elm) || Lacks(m, parent, R, elm))
    && AllBalanced(m, parent)
    && AllNoRedKid(m, elm)
    && (root != elm ==> BlackRoot(m, root))
  }

  /** The sibling of a node that is one black node short exists. */
  lemma SiblingExists(m: Cells, root: Node?, len: int, p: Node, d: Side, elm: Node?)
    requires RemoveState(m, root, len, p, elm) && Lacks(m, p, d, elm)
    ensures var s := m[p].Kid(d.Opposite());
      s != null && s in m && s != p && s != elm && Balanced(m, s) && m[s].parent == p
    ensures elm != p
    ensures IsRed(m, m[p].Kid(d.Opposite())) ==> m[p].color.Black?
    ensures elm != null ==> elm in m && m[elm].parent == p
  {
    assert Linked(m, root, len, p);
    assert elm != p && NoRedKid(m, p, elm);
    var s := m[p].Kid(d.Opposite());
    assert s in m && Balanced(m, s);
  }

  /** Red sibling: recolour and rotate so that the sibling becomes black. */
  ghost function LiftSibling(m: Cells, p: Node, s: Node, d: Side): Cells
    requires p in m && s in m && m[p].Kid(d.Opposite()) == s
  {
    Rotate(Paint(Paint(m, s, Black, m[s].bh + 1), p, Red, m[p].bh - 1), p, d)
  }

  lemma LiftSiblingKeepsLinks(m: Cells, root: Node?, len: int, p: Node, s: Node, d: Side)
    requires Links(m, root, len) && p in m && s in m && m[p].Kid(d.Opposite()) == s
    ensures Links(LiftSibling(m, p, s, d), if root == p then s else root, len)
  {
    PaintTwiceKeepsLinks(m, root, len, s, Black, m[s].bh + 1, p, Red, m[p].bh - 1);
    RotateKeepsLinks(Paint(Paint(m, s, Black, m[s].bh + 1), p, Red, m[p].bh - 1), root, len, p, d);
  }

  lemma RedSiblingStep(m: Cells, root: Node?, len: int, p: Node, d: Side, elm: Node?, s: Node)
    requires RemoveState(m, root, len, p, elm) && Lacks(m, p, d, elm)
    requires m[p].Kid(d.Opposite()) == s && IsRed(m, s)
    ensures var m' := LiftSibling(m, p, s, d);
      && RemoveState(m', if root == p then s else root, len, p, elm) && Lacks(m', p, d, elm)
      && m'[p].color.Red? && !IsRed(m', m'[p].Kid(d.Opposite()))
  {
    SiblingExists(m, root, len, p, d, elm);
    assert Linked(m, root, len, p) && Linked(m, root, len, s) && Balanced(m, s) && NoRedKid(m, s, elm);
    LiftSiblingKeepsLinks(m, root, len, p, s, d);
    var m' := LiftSibling(m, p, s, d);
    forall n | n in m' ensures (n != p ==> Balanced(m', n)) && (n != elm ==> NoRedKid(m', n, elm)) {
      assert Linked(m, root, len, n) && (n != p ==> Balanced(m, n)) && (n != elm ==> NoRedKid(m, n, elm));
      RedSiblingStepBalance(m, root, len, p, d, elm, s, n);
      RedSiblingStepRed(m, root, len, p, d, elm, s, n);
    }
  }

  lemma RedSiblingStepBalance(m: Cells, root: Node?, len: int, p: Node, d: Side, elm: Node?, s: Node, n: Node)
    requires Lacks(m, p, d, elm) && m[p].Kid(d.Opposite()) == s && IsRed(m, s) && m[p].color.Black? && s != p
    requires elm != s && n in m
    requires Linked(m, root, len, p) && Linked(m, root, len, s) && Linked(m, root, len, n)
    requires Balanced(m, s) && NoRedKid(m, s, elm)
    requires (n != p ==> Balanced(m, n)) && (n != elm ==> NoRedKid(m, n, elm))
    ensures n != p ==> Balanced(LiftSibling(m, p, s, d), n)
  {
  }

  lemma RedSiblingStepRed(m: Cells, root: Node?, len: int, p: Node, d: Side, elm: Node?, s: Node, n: Node)
    requires Lacks(m, p, d, elm) && m[p].Kid(d.Opposite()) == s && IsRed(m, s) && m[p].color.Black? && s != p
    requires elm != s && n in m
    requires Linked(m, root, len, p) && Linked(m, root, len, s) && Linked(m, root, len, n)
    requires Balanced(m, s) && NoRedKid(m, s, elm)
    requires (n != p ==> Balanced(m, n)) && (n != elm ==> NoRedKid(m, n, elm))
    ensures n != elm ==> NoRedKid(LiftSibling(m, p, s, d), n, elm)
  {
  }

  /** Black sibling with black children: paint it red and pass the shortage on to the parent. */
  ghost function RedenSibling(m: Cells, p: Node, s: Node): Cells
    requires p in m && s in m
  {
    Paint(Paint(m, s, Red, m[s].bh - 1), p, m[p].color, m[p].bh - 1)
  }

  lemma BlackSiblingStep(m: Cells, root: Node?, len: int, p: Node, d: Side, elm: Node?, s: Node)
    requires RemoveState(m, root, len, p, elm) && Lacks(m, p, d, elm) && !IsRed(m, elm)
    requires m[p].Kid(d.Opposite()) == s && s in m && m[s].color.Black?
    requires !IsRed(m, m[s].left) && !IsRed(m, m[s].right)
    ensures RemoveState(RedenSibling(m, p, s), root, len, m[p].parent, p)
  {
    SiblingExists(m, root, len, p, d, elm);
    assert Linked(m, root, len, p) && Linked(m, root, len, s) && Balanced(m, s);
    PaintTwiceKeepsLinks(m, root, len, s, Red, m[s].bh - 1, p, m[p].color, m[p].bh - 1);
    var m', g := RedenSibling(m, p, s), m[p].parent;
    if g != null {
      assert Linked(m, root, len, g) && Balanced(m, g);
      RedenLacks(m, root, len, p, d, elm, s, g);
    }
    assert root != p ==> BlackRoot(m', root);
    hide Linked, Lacks, BlackRoot;
    forall n | n in m' ensures (n != g ==> Balanced(m', n)) && (n != p ==> NoRedKid(m', n, p)) {
      assert Linked(m, root, len, n) && (n != p ==> Balanced(m, n)) && (n != elm ==> NoRedKid(m, n, elm));
      BlackSiblingStepAt(m, root, len, p, d, elm, s, n);
    }
  }

  lemma RedenLacks(m: Cells, root: Node?, len: int, p: Node, d: Side, elm: Node?, s: Node, g: Node)
    requires Lacks(m, p, d, elm) && m[p].Kid(d.Opposite()) == s && s in m && s != p
    requires m[p].parent == g && g in m && Linked(m, root, len, p) && Linked(m, root, len, s)
    requires Linked(m, root, len, g) && Balanced(m, g)
    ensures var m' := RedenSibling(m, p, s); Lacks(m', g, L, p) || Lacks(m', g, R, p)
  {
  }

  lemma BlackSiblingStepAt(m: Cells, root: Node?, len: int, p: Node, d: Side, elm: Node?, s: Node, n: Node)
    requires Lacks(m, p, d, elm) && !IsRed(m, elm) && m[p].Kid(d.Opposite()) == s && s in m && m[s].color.Black?
    requires s != p && elm != s && n in m && !IsRed(m, m[s].left) && !IsRed(m, m[s].right)
    requires Linked(m, root, len, p) && Linked(m, root, len, s) && Linked(m, root, len, n)
    requires Balanced(m, s) && (n != p ==> Balanced(m, n)) && (n != elm ==> NoRedKid(m, n, elm))
    ensures var m' := RedenSibling(m, p, s);
      (n != m[p].parent ==> Balanced(m', n)) && (n != p ==> NoRedKid(m', n, p))
  {
  }

  /** Only the near child `near` of the sibling is red: rotate it above the sibling. */
  ghost function LiftNear(m: Cells, s: Node, near: Node, d: Side): Cells
    requires s in m && near in m && m[s].Kid(d) == near
  {
    Rotate(Paint(Paint(m, near, Black, m[near].bh + 1), s, Red, m[s].bh - 1), s, d.Opposite())
  }

  lemma LiftNearKeepsLinks(m: Cells, root: Node?, len: int, s: Node, near: Node, d: Side)
    requires Links(m, root, len) && s in m && near in m && m[s].Kid(d) == near && root != s
    ensures Links(LiftNear(m, s, near, d), root, len)
  {
    PaintTwiceKeepsLinks(m, root, len, near, Black, m[near].bh + 1, s, Red, m[s].bh - 1);
    RotateKeepsLinks(Paint(Paint(m, near, Black, m[near].bh + 1), s, Red, m[s].bh - 1), root, len, s, d.Opposite());
  }

  lemma NearStep(m: Cells, root: Node?, len: int, p: Node, d: Side, elm: Node?, s: Node, near: Node)
    requires RemoveState(m, root, len, p, elm) && Lacks(m, p, d, elm) && !IsRed(m, elm)
    requires m[p].Kid(d.Opposite()) == s && s in m && m[s].color.Black?
    requires m[s].Kid(d) == near && IsRed(m, near) && !IsRed(m, m[s].Kid(d.Opposite()))
    ensures var m' := LiftNear(m, s, near, d);
      && RemoveState(m', root, len, p, elm) && Lacks(m', p, d, elm) && !IsRed(m', elm)
      && m'[p].Kid(d.Opposite()) == near && m'[near].color.Black?
      && m'[near].Kid(d.Opposite()) == s && IsRed(m', s)
  {
    hide Linked;
    SiblingExists(m, root, len, p, d, elm);
    assert Linked(m, root, len, p) && Linked(m, root, len, s) && Linked(m, root, len, near);
    assert Balanced(m, s) && Balanced(m, near) && NoRedKid(m, near, elm);
    LiftNearKeepsLinks(m, root, len, s, near, d);
    NearLacks(m, root, len, p, d, elm, s, near);
    var m' := LiftNear(m, s, near, d);
    assert root != elm ==> BlackRoot(m', root);
    hide Lacks, BlackRoot, Rotate;
    forall n | n in m' ensures (n != p ==> Balanced(m', n)) && (n != elm ==> NoRedKid(m', n, elm)) {
      assert Linked(m, root, len, n) && (n != p ==> Balanced(m, n)) && (n != elm ==> NoRedKid(m, n, elm));
      NearStepBalance(m, root, len, p, d, elm, s, near, n);
      NearStepRed(m, root, len, p, d, elm, s, near, n);
    }
  }

  /** Seen from `p`, the near child has taken the place of the sibling. */
  lemma NearLacks(m: Cells, root: Node?, len: int, p: Node, d: Side, elm: Node?, s: Node, near: Node)
    requires Lacks(m, p, d, elm) && !IsRed(m, elm) && m[p].Kid(d.Opposite()) == s && s in m && m[s].color.Black?
    requires m[s].Kid(d) == near && IsRed(m, near) && s != p && s != elm && elm != near
    requires Linked(m, root, len, p) && Linked(m, root, len, s) && Linked(m, root, len, near)
    requires Balanced(m, s) && Balanced(m, near)
    ensures var m' := LiftNear(m, s, near, d);
      && Lacks(m', p, d, elm) && !IsRed(m', elm)
      && m'[p].Kid(d.Opposite()) == near && m'[near].color.Black?
      && m'[near].Kid(d.Opposite()) == s && IsRed(m', s)
  {
  }

  lemma NearStepBalance(m: Cells, root: Node?, len: int, p: Node, d: Side, elm: Node?, s: Node, near: Node, n: Node)
    requires Lacks(m, p, d, elm) && !IsRed(m, elm) && m[p].Kid(d.Opposite()) == s && s in m && m[s].color.Black?
    requires m[s].Kid(d) == near && IsRed(m, near) && !IsRed(m, m[s].Kid(d.Opposite())) && n in m
    requires s != p && s != near && elm != near
    requires Linked(m, root, len, p) && Linked(m, root, len, s) && Linked(m, root, len, near) && Linked(m, root, len, n)
    requires Balanced(m, s) && Balanced(m, near) && NoRedKid(m, near, elm)
    requires (n != p ==> Balanced(m, n)) && (n != elm ==> NoRedKid(m, n, elm))
    ensures n != p ==> Balanced(LiftNear(m, s, near, d), n)
  {
    var m2 := Paint(Paint(m, near, Black, m[near].bh + 1), s, Red, m[s].bh - 1);
    if n == near || n == s {
      RotateBalancePair(m2, s, d.Opposite(), m[near].bh);
    } else if n != p {
      RotateBalance(m2, s, d.Opposite(), n);
    }
  }

  lemma NearStepRed(m: Cells, root: Node?, len: int, p: Node, d: Side, elm: Node?, s: Node, near: Node, n: Node)
    requires Lacks(m, p, d, elm) && !IsRed(m, elm) && m[p].Kid(d.Opposite()) == s && s in m && m[s].color.Black?
    requires m[s].Kid(d) == near && IsRed(m, near) && !IsRed(m, m[s].Kid(d.Opposite())) && n in m
    requires s != p && s != near && elm != near
    requires Linked(m, root, len, p) && Linked(m, root, len, s) && Linked(m, root, len, near) && Linked(m, root, len, n)
    requires Balanced(m, s) && Balanced(m, near) && NoRedKid(m, near, elm)
    requires (n != p ==> Balanced(m, n)) && (n != elm ==> NoRedKid(m, n, elm))
    ensures n != elm ==> NoRedKid(LiftNear(m, s, near, d), n, elm)
  {
  }

  /** The far child `far` of the sibling is red: one rotation restores the missing black node. */
  ghost function LiftFar(m: Cells, p: Node, s: Node, far: Node, d: Side): Cells
    requires p in m && s in m && far in m && m[p].Kid(d.Opposite()) == s
  {
    var m1 := Paint(m, s, m[p].color, m[p].bh);
    var m2 := Paint(m1, p, Black, Height(m, m[p].Kid(d)) + 1);
    Rotate(Paint(m2, far, Black, m[far].bh + 1), p, d)
  }

  lemma LiftFarKeepsLinks(m: Cells, root: Node?, len: int, p: Node, s: Node, far: Node, d: Side)
    requires Links(m, root, len) && p in m && s in m && far in m && m[p].Kid(d.Opposite()) == s
    ensures Links(LiftFar(m, p, s, far, d), if root == p then s else root, len)
  {
    var m1 := Paint(m, s, m[p].color, m[p].bh);
    var m2 := Paint(m1, p, Black, Height(m, m[p].Kid(d)) + 1);
    PaintTwiceKeepsLinks(m, root, len, s, m[p].color, m[p].bh, p, Black, Height(m, m[p].Kid(d)) + 1);
    PaintKeepsLinks(m2, root, len, far, Black, m[far].bh + 1);
    RotateKeepsLinks(Paint(m2, far, Black, m[far].bh + 1), root, len, p, d);
  }

  lemma FarStep(m: Cells, root: Node?, len: int, p: Node, d: Side, elm: Node?, s: Node, far: Node)
    requires RemoveState(m, root, len, p, elm) && Lacks(m, p, d, elm) && !IsRed(m, elm)
    requires m[p].Kid(d.Opposite()) == s && s in m && m[s].color.Black?
    requires m[s].Kid(d.Opposite()) == far && IsRed(m, far)
    ensures far != p && far != s && p != s
    ensures RedBlack(LiftFar(m, p, s, far, d), if root == p then s else root, len)
  {
    SiblingExists(m, root, len, p, d, elm);
    assert Linked(m, root, len, p) && Linked(m, root, len, s) && Linked(m, root, len, far);
    assert Balanced(m, s) && Balanced(m, far) && NoRedKid(m, far, elm);
    LiftFarKeepsLinks(m, root, len, p, s, far, d);
    var m' := LiftFar(m, p, s, far, d);
    forall n | n in m' ensures Balanced(m', n) && NoRedKid(m', n, null) {
      assert Linked(m, root, len, n) && (n != p ==> Balanced(m, n)) && (n != elm ==> NoRedKid(m, n, elm));
      FarStepBalance(m, root, len, p, d, elm, s, far, n);
      FarStepRed(m, root, len, p, d, elm, s, far, n);
    }
  }

  lemma FarStepBalance(m: Cells, root: Node?, len: int, p: Node, d: Side, elm: Node?, s: Node, far: Node, n: Node)
    requires Lacks(m, p, d, elm) && !IsRed(m, elm) && m[p].Kid(d.Opposite()) == s && s in m && m[s].color.Black?
    requires m[s].Kid(d.Opposite()) == far && IsRed(m, far) && n in m
    requires s != p && s != far && p != far && elm != far && elm != s && elm != p
    requires Linked(m, root, len, p) && Linked(m, root, len, s) && Linked(m, root, len, far) && Linked(m, root, len, n)
    requires Balanced(m, s) && Balanced(m, far) && NoRedKid(m, p, elm)
    requires (n != p ==> Balanced(m, n)) && (n != elm ==> NoRedKid(m, n, elm))
    ensures Balanced(LiftFar(m, p, s, far, d), n)
  {
    var m1 := Paint(m, s, m[p].color, m[p].bh);
    var m2 := Paint(m1, p, Black, Height(m, m[p].Kid(d)) + 1);
    if n == p || n == s {
      FarPairBalance(m, root, len, p, d, elm, s, far);
    } else {
      hide Rotate;
      RotateBalance(Paint(m2, far, Black, m[far].bh + 1), p, d, n);
    }
  }

  lemma FarPairBalance(m: Cells, root: Node?, len: int, p: Node, d: Side, elm: Node?, s: Node, far: Node)
    requires Lacks(m, p, d, elm) && m[p].Kid(d.Opposite()) == s && s in m && m[s].color.Black?
    requires m[s].Kid(d.Opposite()) == far && IsRed(m, far) && Balanced(m, s)
    requires s != p && s != far && p != far && elm != far && elm != s && elm != p
    requires Linked(m, root, len, p) && Linked(m, root, len, s)
    ensures Balanced(LiftFar(m, p, s, far, d), p) && Balanced(LiftFar(m, p, s, far, d), s)
  {
    hide Rotate;
    var m1 := Paint(m, s, m[p].color, m[p].bh);
    var m2 := Paint(m1, p, Black, Height(m, m[p].Kid(d)) + 1);
    RotateBalancePair(Paint(m2, far, Black, m[far].bh + 1), p, d, Height(m, elm));
  }

  lemma FarStepRed(m: Cells, root: Node?, len: int, p: Node, d: Side, elm: Node?, s: Node, far: Node, n: Node)
    requires Lacks(m, p, d, elm) && !IsRed(m, elm) && m[p].Kid(d.Opposite()) == s && s in m && m[s].color.Black?
    requires m[s].Kid(d.Opposite()) == far && IsRed(m, far) && n in m
    requires s != p && s != far && p != far && elm != far && elm != s && elm != p
    requires Linked(m, root, len, p) && Linked(m, root, len, s) && Linked(m, root, len, far) && Linked(m, root, len, n)
    requires Balanced(m, s) && Balanced(m, far) && NoRedKid(m, p, elm)
    requires (n != p ==> Balanced(m, n)) && (n != elm ==> NoRedKid(m, n, elm))
    ensures NoRedKid(LiftFar(m, p, s, far, d), n, null)
  {
  }

  /** How far the shortage still has to climb: nothing once `elm` is red or the root. */
  ghost function RemoveClimb(m: Cells, len: int, root: Node?, parent: Node?, elm: Node?): int {
    if IsRed(m, elm) || elm == root || parent == null || parent !in m then 0
    else 1 + len - (m[parent].hi - m[parent].lo)
  }

  /** A finished tree is a stopping state of the loop with `elm` at the root. */
  lemma RedBlackStops(m: Cells, root: Node?, len: int)
    requires RedBlack(m, root, len)
    ensures RemoveState(m, root, len, null, root)
  {
    forall n | n in m && n != root ensures NoRedKid(m, n, root) {
      assert NoRedKid(m, n, null);
    }
  }

  /** Once `elm` is red or the root, painting it black finishes the tree. */
  lemma RemoveDone(m: Cells, root: Node?, len: int, parent: Node?, elm: Node)
    requires RemoveState(m, root, len, parent, elm) && elm in m && (IsRed(m, elm) || elm == root)
    ensures RedBlack(Paint(m, elm, Black, m[elm].bh + (if m[elm].color.Red? then 1 else 0)), root, len)
  {
    var bh := m[elm].bh + (if m[elm].color.Red? then 1 else 0);
    var m' := Paint(m, elm, Black, bh);
    PaintKeepsLinks(m, root, len, elm, Black, bh);
    assert parent != null ==> Linked(m, root, len, parent);
    assert Linked(m, root, len, elm) && Balanced(m, elm);
    assert BlackRoot(m', root);
    forall n | n in m' ensures Balanced(m', n) && NoRedKid(m', n, null) {
      assert Linked(m, root, len, n) && (n != parent ==> Balanced(m, n)) && (n != elm ==> NoRedKid(m, n, elm));
      RemoveDoneAt(m, root, len, parent, elm, n);
    }
  }

  lemma RemoveDoneAt(m: Cells, root: Node?, len: int, parent: Node?, elm: Node, n: Node)
    requires elm in m && n in m && (m[elm].color.Red? || elm == root)
    requires root != null && root in m && m[root].parent == null
    requires Linked(m, root, len, elm) && Linked(m, root, len, n) && Balanced(m, elm)
    requires parent == null ==> elm == root
    requires parent != null ==> Lacks(m, parent, L, elm) || Lacks(m, parent, R, elm)
    requires parent != null ==> Linked(m, root, len, parent)
    requires (n != parent ==> Balanced(m, n)) && (n != elm ==> NoRedKid(m, n, elm))
    ensures var m' := Paint(m, elm, Black, m[elm].bh + (if m[elm].color.Red? then 1 else 0));
      Balanced(m', n) && NoRedKid(m', n, null)
  {
  }

  // ---------- Starting a removal ----------

  lemma DetachStep(m: Cells, root: Node?, order: seq<Node>, x: Node, n: Node)
    requires RedBlack(m, root, |order|) && Indexed(m, order)
    requires x in m && n in m && n != x && (m[x].left == null || m[x].right == null)
    ensures var m' := Detach(m, x);
      && (m[x].color.Red? || n != m[x].parent ==> Balanced(m', n))
      && (m[x].color.Red? ==> NoRedKid(m', n, null))
      && (n != OnlyKid(m, x) ==> NoRedKid(m', n, OnlyKid(m, x)))
  {
    assert Linked(m, root, |order|, x) && Balanced(m, x) && NoRedKid(m, x, null);
    assert Linked(m, root, |order|, n) && Balanced(m, n) && NoRedKid(m, n, null);
    DetachTouches(m, root, |order|, x, n);
  }

  /** Detaching a red node leaves a red-black tree. */
  lemma DetachRed(m: Cells, root: Node?, order: seq<Node>, x: Node)
    requires RedBlack(m, root, |order|) && Indexed(m, order)
    requires x in m && (m[x].left == null || m[x].right == null) && m[x].color.Red?
    ensures RedBlack(Detach(m, x), DetachedRoot(m, root, x), |order| - 1)
  {
    DetachKeepsLinks(m, root, order, x);
    forall n | n in Detach(m, x) ensures Balanced(Detach(m, x), n) && NoRedKid(Detach(m, x), n, null) {
      DetachStep(m, root, order, x, n);
    }
  }

  /** Detaching a black node leaves its former place one black node short. */
  lemma DetachBlack(m: Cells, root: Node?, order: seq<Node>, x: Node)
    requires RedBlack(m, root, |order|) && Indexed(m, order)
    requires x in m && (m[x].left == null || m[x].right == null) && m[x].color.Black?
    ensures RemoveState(Detach(m, x), DetachedRoot(m, root, x), |order| - 1, m[x].parent, OnlyKid(m, x))
  {
    var m', p, kid := Detach(m, x), m[x].parent, OnlyKid(m, x);
    DetachKeepsLinks(m, root, order, x);
    forall n | n in m' ensures (n != p ==> Balanced(m', n)) && (n != kid ==> NoRedKid(m', n, kid)) {
      DetachStep(m, root, order, x, n);
    }
    assert Linked(m, root, |order|, x) && Balanced(m, x);
    if p != null {
      assert Linked(m, root, |order|, p) && Balanced(m, p);
      DetachTouches(m, root, |order|, x, p);
    }
  }

  /** Both together: what unlinking `x` leaves in place of the old cells and the old order. */
  lemma DetachResult(m: Cells, root: Node?, order: seq<Node>, x: Node)
    requires RedBlack(m, root, |order|) && Indexed(m, order)
    requires x in m && (m[x].left == null || m[x].right == null)
    ensures var m', root', k := Detach(m, x), DetachedRoot(m, root, x), m[x].pos;
      && 0 <= k < |order|
      && var order' := order[..k] + order[k + 1..];
      && m'.Keys == m.Keys - {x} && Indexed(m', order')
      && (m[x].color.Red? ==> RedBlack(m', root', |order'|))
      && (m[x].color.Black? ==> RemoveState(m', root', |order'|, m[x].parent, OnlyKid(m, x)))
  {
    assert 0 <= m[x].pos < |order|;
    hide RedBlack, RemoveState, Indexed;
    DetachKeepsIndexed(m, order, x);
    if m[x].color.Black? {
      DetachBlack(m, root, order, x);
    } else {
      DetachRed(m, root, order, x);
    }
  }

  /** The name of a node after `y` has taken the place of `x`. */
  ghost function Renamed(x: Node, y: Node, n: Node?): Node? {
    if n == x then y else n
  }

  lemma ReplaceStep(m: Cells, x: Node, y: Node, n: Node, except: Node?)
    requires x in m && y !in m && n in m && m[n].left != y && m[n].right != y && except != y
    ensures var m', n' := Replace(m, x, y), if n == x then y else n;
      && (Balanced(m, n) ==> Balanced(m', n'))
      && (NoRedKid(m, n, except) ==> NoRedKid(m', n', Renamed(x, y, except)))
  {
  }

  lemma ReplaceRedBlack(m: Cells, root: Node?, len: int, x: Node, y: Node)
    requires RedBlack(m, root, len) && x in m && y !in m
    ensures RedBlack(Replace(m, x, y), Renamed(x, y, root), len)
  {
    var m' := Replace(m, x, y);
    ReplaceKeepsLinks(m, root, len, x, y);
    forall n' | n' in m' ensures Balanced(m', n') && NoRedKid(m', n', null) {
      var n := if n' == y then x else n';
      assert Linked(m, root, len, n) && Balanced(m, n) && NoRedKid(m, n, null);
      ReplaceStep(m, x, y, n, null);
    }
  }

  lemma ReplaceState(m: Cells, root: Node?, len: int, parent: Node?, elm: Node?, x: Node, y: Node)
    requires RemoveState(m, root, len, parent, elm) && x in m && y !in m && elm != y
    ensures RemoveState(Replace(m, x, y), Renamed(x, y, root), len, Renamed(x, y, parent), Renamed(x, y, elm))
  {
    var m' := Replace(m, x, y);
    ReplaceKeepsLinks(m, root, len, x, y);
    forall n' | n' in m'
      ensures n' != Renamed(x, y, parent) ==> Balanced(m', n')
      ensures n' != Renamed(x, y, elm) ==> NoRedKid(m', n', Renamed(x, y, elm))
    {
      var n := if n' == y then x else n';
      assert Linked(m, root, len, n);
      assert n != parent ==> Balanced(m, n);
      assert n != elm ==> NoRedKid(m, n, elm);
      ReplaceStep(m, x, y, n, elm);
    }
    assert parent != null ==> Linked(m, root, len, parent);
  }

  /** `s` follows `elm` in the order and has no left child. */
  ghost predicate Succeeds(m: Cells, root: Node?, order: seq<Node>, elm: Node, s: Node) {
    && RedBlack(m, root, |order|) && Indexed(m, order)
    && elm in m && s in m && m[elm].left != null && m[s].left == null && m[s].pos == m[elm].pos + 1
  }

  /** After the successor is detached, `elm` still stands at its place with its left child. */
  lemma SuccessorDetached(m: Cells, root: Node?, order: seq<Node>, elm: Node, s: Node)
    requires Succeeds(m, root, order, elm, s)
    ensures var m', k := Detach(m, s), m[elm].pos;
      && Links(m', DetachedRoot(m, root, s), |order| - 1) && Indexed(m', order[..k + 1] + order[k + 2..])
      && elm in m' && m'[elm].left == m[elm].left && m'[elm].pos == k
    ensures m[s].right != elm && elm != s && m[s].right != s
  {
    assert Linked(m, root, |order|, s) && Linked(m, root, |order|, elm);
    DetachKeepsIndexed(m, order, s);
    DetachKeepsLinks(m, root, order, s);
  }

  /** The whole exchange leaves the order without `elm`, and at most one black node short. */
  lemma SuccessorSwapped(m: Cells, root: Node?, order: seq<Node>, elm: Node, s: Node)
    requires Succeeds(m, root, order, elm, s)
    requires elm in Detach(m, s)
    ensures var m', root' := Replace(Detach(m, s), elm, s), Renamed(elm, s, DetachedRoot(m, root, s));
      && (m[s].color.Red? ==> RedBlack(m', root', |order| - 1))
      && (m[s].color.Black? ==>
            RemoveState(m', root', |order| - 1, Renamed(elm, s, m[s].parent), m[s].right))
  {
    SuccessorDetached(m, root, order, elm, s);
    if m[s].color.Black? {
      DetachBlack(m, root, order, s);
      ReplaceState(Detach(m, s), DetachedRoot(m, root, s), |order| - 1, m[s].parent, m[s].right, elm, s);
    } else {
      DetachRed(m, root, order, s);
      ReplaceRedBlack(Detach(m, s), DetachedRoot(m, root, s), |order| - 1, elm, s);
    }
  }

  lemma ExchangedNodes(m: Cells, elm: Node, s: Node)
    requires elm in m && s in m && elm != s
    ensures elm in Detach(m, s) && Replace(Detach(m, s), elm, s).Keys == m.Keys - {elm}
  {
  }

  lemma SuccessorOrder(m: Cells, root: Node?, order: seq<Node>, elm: Node, s: Node)
    requires Succeeds(m, root, order, elm, s) && elm in Detach(m, s)
    ensures var k := m[elm].pos;
      && (order[..k + 1] + order[k + 2..])[k := s] == order[..k] + order[k + 1..]
      && Indexed(Replace(Detach(m, s), elm, s), order[..k] + order[k + 1..])
  {
    var k := m[elm].pos;
    SuccessorDetached(m, root, order, elm, s);
    assert order[k + 1] == s;
    ReplaceKeepsIndexed(Detach(m, s), order[..k + 1] + order[k + 2..], elm, s);
  }

  /** All of it together: what the exchange leaves in place of the old cells and the old order. */
  lemma ExchangeResult(m: Cells, root: Node?, order: seq<Node>, elm: Node, s: Node)
    requires Succeeds(m, root, order, elm, s)
    ensures elm in Detach(m, s)
    ensures var m', root' := Replace(Detach(m, s), elm, s), Renamed(elm, s, DetachedRoot(m, root, s));
      var k := m[elm].pos;
      && 0 <= k < |order| - 1
      && var order' := order[..k] + order[k + 1..];
      && m'.Keys == m.Keys - {elm} && Indexed(m', order') && (order[..k + 1] + order[k + 2..])[k := s] == order'
      && (m[s].color.Red? ==> RedBlack(m', root', |order'|))
      && (m[s].color.Black? ==> RemoveState(m', root', |order'|, Renamed(elm, s, m[s].parent), m[s].right))
  {
    assert 0 <= m[elm].pos < m[s].pos < |order| && elm != s;
    hide RedBlack, RemoveState, Indexed, Links;
    SuccessorDetached(m, root, order, elm, s);
    SuccessorSwapped(m, root, order, elm, s);
    SuccessorOrder(m, root, order, elm, s);
    ExchangedNodes(m, elm, s);
  }

  // ---------- Starting an insertion ----------

  lemma AttachState(m: Cells, root: Node?, order: seq<Node>, p: Node, d: Side, e: Node)
    requires RedBlack(m, root, |order|) && Indexed(m, order)
    requires p in m && m[p].Kid(d) == null && e !in m
    ensures InsertState(Attach(m, p, d, e), root, |order| + 1, e)
  {
    var m' := Attach(m, p, d, e);
    AttachKeepsLinks(m, root, order, p, d, e);
    assert Linked(m, root, |order|, p);
    forall n | n in m' ensures Balanced(m', n) && NoRedKid(m', n, e) {
      if n != e {
        assert Linked(m, root, |order|, n) && Balanced(m, n) && NoRedKid(m, n, null);
      }
    }
  }
}
