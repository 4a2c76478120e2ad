/** Pointer surgery on the row tree, and the AVL rotations made of it. */
module Rotations {
  import opened RowTree
  import opened Memory
  import opened Counting
  import opened Avl

  /** Memory after `child` is put into one child slot of `owner`. */
  ghost function Hung(h: Memory, owner: Row?, side: bool, child: Row?): Memory {
    if owner == null then h
    else h[owner := if side then Get(h, owner).(left := child) else Get(h, owner).(right := child)]
  }

  /** Memory after `child`, if there is one, is told its parent and side. */
  ghost function Adopted(h: Memory, child: Row?, p: Row?, side: bool): Memory {
    if child == null then h else h[child := Get(h, child).(parent := p, fLeft := side)]
  }

  method SetChild(owner: Row, side: bool, child: Row?, ghost rep: set<Row>)
    requires owner in rep
    modifies owner`left, owner`right
    ensures owner.left == (if side then child else old(owner.left))
    ensures owner.right == (if side then old(owner.right) else child)
    ensures Snap(rep) == Hung(old(Snap(rep)), owner, side, child)
  {
    if side {
      owner.left := child;
    } else {
      owner.right := child;
    }
  }

  method Adopt(child: Row?, p: Row?, side: bool, ghost rep: set<Row>)
    requires child == null || child in rep
    modifies (if child == null then {} else {child})`parent, (if child == null then {} else {child})`fLeft
    ensures child != null ==> child.parent == p && child.fLeft == side
    ensures Snap(rep) == Adopted(old(Snap(rep)), child, p, side)
  {
    if child != null {
      child.parent, child.fLeft := p, side;
    }
  }

  // ---------- what a pointer update keeps ----------

  /** Nothing but the cells of `rows` differs. */
  ghost predicate SameElsewhere(h: Memory, g: Memory, rows: set<Row?>) {
    h.Keys == g.Keys && forall r :: r in h && r !in rows ==> g[r] == h[r]
  }

  lemma {:induction false} RootKnown(h: Memory, c: Ctx, root: Row, hole: Row?)
    requires CtxLinked(h, c, root, hole)
    ensures root in h
    decreases c
  {
    if !c.Top? {
      RootKnown(h, c.up, root, c.row);
    }
  }

  /** The context sees another child in its hole, and is otherwise as before. */
  lemma Refilled(h: Memory, g: Memory, c: Ctx, root: Row, was: Row?, child: Row?, rows: set<Row?>)
    requires CtxLinked(h, c, root, was) && CtxDistinct(c) && root !in CtxRows(c)
    requires SameElsewhere(h, g, rows + {Owner(c, root)}) && rows !! CtxRows(c) && root !in rows
    requires var p := Owner(c, root);
             p in h && g[p] == if c.InLeft? then h[p].(left := child) else h[p].(right := child)
    ensures CtxLinked(g, c, root, child)
  {
    match c
    case Top =>
    case InLeft(r, rt, up) =>
      RootKnown(h, up, root, r);
      LinkedKept(h, g, rt, r, false);
      CtxLinkedKept(h, g, up, root, r);
    case InRight(l, r, up) =>
      RootKnown(h, up, root, r);
      LinkedKept(h, g, l, r, true);
      CtxLinkedKept(h, g, up, root, r);
  }

  /** A subtree none of whose cells was written. */
  lemma Untouched(h: Memory, g: Memory, t: Tree, p: Row, side: bool, rows: set<Row?>)
    requires Linked(h, t, p, side) && SameElsewhere(h, g, rows) && rows !! Rows(t)
    ensures Linked(g, t, p, side)
  {
    LinkedKept(h, g, t, p, side);
  }

  /** A subtree under another parent. */
  lemma Rehung(h: Memory, g: Memory, t: Tree, q: Row, was: bool, p: Row, side: bool, rows: set<Row?>)
    requires Linked(h, t, q, was) && Distinct(t)
    requires SameElsewhere(h, g, rows + {Apex(t)}) && rows !! Rows(t)
    requires t.Node? ==> t.row in g && g[t.row] == h[t.row].(parent := p, fLeft := side)
    ensures Linked(g, t, p, side)
  {
    if t.Node? {
      Untouched(h, g, t.left, t.row, true, rows + {t.row});
      Untouched(h, g, t.right, t.row, false, rows + {t.row});
    }
  }

  // ---------- single rotations ----------

  /** The two counting walks that end a rotation. */
  method RecountTurn(root: Row, low: Row, high: Row, ghost c: Ctx, ghost t: Tree, ghost rep: set<Row>)
    requires Walking(Snap(rep), root, low, c, t) && low != root && !c.Top? && high == c.row
    modifies rep`height, rep`branchCount
    ensures Resized(old(Snap(rep)), Snap(rep)) && Sound(Snap(rep), root, Zip(c, t))
  {
    UpdateCounts(root, low, c, t, rep);
    Settled(Snap(rep), root, c.up, Wrap(c, t));
    UpdateCounts(root, high, c.up, Wrap(c, t), rep);
  }

  // ---------- rotations that lift the left child ----------

  /** The pointer updates of a rotation that lifts the left child. */
  ghost function RelinkedL(h: Memory, pivot: Row): Memory {
    var l := Get(h, pivot).left;
    var p, s, b := Get(h, pivot).parent, Get(h, pivot).fLeft, Get(h, l).right;
    var turned := Adopted(Hung(Hung(Adopted(h, l, p, s), p, s, l), pivot, true, b), b, pivot, true);
    Adopted(Hung(turned, l, false, pivot), pivot, l, false)
  }

  /** The cells those updates leave: `l` is lifted over `pivot`, and `b` changes sides. */
  ghost predicate LiftedL(h: Memory, g: Memory, pivot: Row, l: Row, p: Row, b: Row?) {
    && {pivot, l, p} <= h.Keys
    && SameElsewhere(h, g, {pivot, l, p, b})
    && g[pivot] == h[pivot].(left := b, parent := l, fLeft := false)
    && g[l] == h[l].(right := pivot, parent := p, fLeft := h[pivot].fLeft)
    && g[p] == (if h[pivot].fLeft then h[p].(left := l) else h[p].(right := l))
    && (b in h ==> g[b] == h[b].(parent := pivot, fLeft := true))
  }

  lemma LiftedLSameSizes(h: Memory, g: Memory, pivot: Row, l: Row, p: Row, b: Row?)
    requires LiftedL(h, g, pivot, l, p, b)
    ensures SameSizes(h, g, h.Keys) && SameHidden(h, g)
  {
  }

  lemma RelinkedLLifts(h: Memory, pivot: Row, l: Row, p: Row, b: Row?)
    requires {pivot, l, p} <= h.Keys && h[pivot].left == l && h[pivot].parent == p && h[l].right == b
    requires pivot != l && pivot != p && l != p && b !in {pivot, l, p} && (b == null || b in h)
    ensures LiftedL(h, RelinkedL(h, pivot), pivot, l, p, b)
  {
  }

  method RelinkL(pivot: Row, ghost rep: set<Row>)
    requires pivot in rep && pivot.left in rep && pivot.parent in rep
    requires pivot.left.right == null || pivot.left.right in rep
    requires pivot != pivot.left && pivot.parent != pivot && pivot.parent != pivot.left
    modifies rep`parent, rep`fLeft, rep`left, rep`right
    ensures Snap(rep) == RelinkedL(old(Snap(rep)), pivot)
  {
    var left := pivot.left;
    Adopt(left, pivot.parent, pivot.fLeft, rep);
    SetChild(pivot.parent, pivot.fLeft, left, rep);
    SetChild(pivot, true, left.right, rep);
    Adopt(left.right, pivot, true, rep);
    SetChild(left, false, pivot, rep);
    Adopt(pivot, left, false, rep);
  }

  lemma LiftedLPlaced(h: Memory, g: Memory, root: Row, c: Ctx, t: Tree)
    requires t.Node? && t.left.Node? && Apart(c, t, root) && Placed(h, c, t, root)
    requires LiftedL(h, g, t.row, t.left.row, Owner(c, root), Apex(t.left.right))
    ensures Placed(g, c, TurnedL(t), root)
  {
    var pivot, left, a, b, e := t.row, t.left.row, t.left.left, t.left.right, t.right;
    assert Distinct(t.left) && Linked(h, t.left, pivot, true) && Rows(t.left) == Rows(a) + {left} + Rows(b);
    Refilled(h, g, c, root, pivot, left, {pivot, left, Apex(b)});
    Untouched(h, g, a, left, true, {pivot, left, Owner(c, root), Apex(b)});
    Untouched(h, g, e, pivot, false, {pivot, left, Owner(c, root), Apex(b)});
    Rehung(h, g, b, left, false, pivot, true, {pivot, left, Owner(c, root)});
  }

  lemma TurnedLApart(root: Row, c: Ctx, t: Tree)
    requires t.Node? && t.left.Node? && Apart(c, t, root)
    ensures Apart(c, TurnedL(t), root) && Rows(TurnedL(t)) == Rows(t)
  {
    var l, r := t.left, TurnedL(t).right;
    assert Distinct(l) && Rows(l) == Rows(l.left) + {l.row} + Rows(l.right);
    assert Rows(r) == Rows(r.left) + {r.row} + Rows(r.right);
  }

  /** After the pointers have been turned, the counting walk can start at the pivot. */
  lemma LiftedLWalking(h: Memory, g: Memory, root: Row, c: Ctx, t: Tree)
    requires t.Node? && t.left.Node? && Sound(h, root, Zip(c, t))
    requires LiftedL(h, g, t.row, t.left.row, Owner(c, root), Apex(t.left.right))
    ensures Walking(g, root, t.row, InRight(t.left.left, t.left.row, c), Node(t.left.right, t.row, t.right))
  {
    var left, a, b, e := t.left.row, t.left.left, t.left.right, t.right;
    Settled(h, root, c, t);
    LiftedLPlaced(h, g, root, c, t);
    LiftedLSizes(h, g, root, c, t);
    TurnedLApart(root, c, t);
    Climb(g, root, InRight(a, left, c), Node(b, t.row, e));
  }

  lemma LiftedLSizes(h: Memory, g: Memory, root: Row, c: Ctx, t: Tree)
    requires t.Node? && t.left.Node? && Walking(h, root, t.row, c, t)
    requires LiftedL(h, g, t.row, t.left.row, Owner(c, root), Apex(t.left.right))
    ensures Exact(g, t.left.left) && Exact(g, t.left.right) && Exact(g, t.right) && SidesExact(g, c)
    ensures Sentinel(g, root)
  {
    assert Exact(h, t.left) && Rows(t.left) == Rows(t.left.left) + {t.left.row} + Rows(t.left.right);
    LiftedLSameSizes(h, g, t.row, t.left.row, Owner(c, root), Apex(t.left.right));
    ExactKept(h, g, t.left.left);
    ExactKept(h, g, t.left.right);
    ExactKept(h, g, t.right);
    SidesExactKept(h, g, c);
  }

  /** Rotation that lifts the left child of `pivot`. */
  method RotateL(root: Row, pivot: Row, ghost c: Ctx, ghost t: Tree, ghost rep: set<Row>)
    requires t.Node? && t.row == pivot && t.left.Node? && Sound(Snap(rep), root, Zip(c, t))
    modifies rep`parent, rep`fLeft, rep`left, rep`right, rep`height, rep`branchCount
    ensures Sound(Snap(rep), root, Zip(c, TurnedL(t)))
    ensures SameHidden(old(Snap(rep)), Snap(rep))
  {
    ghost var h := Snap(rep);
    RotationSetL(h, root, c, t);
    assert pivot.left == h[pivot].left && pivot.parent == h[pivot].parent && pivot.left.right == h[pivot.left].right;
    var left := pivot.left;
    RelinkL(pivot, rep);
    LiftedLWalking(h, Snap(rep), root, c, t);
    LiftedLSameSizes(h, Snap(rep), pivot, left, Owner(c, root), Apex(t.left.right));
    ghost var d, u := InRight(t.left.left, left, c), Node(t.left.right, pivot, t.right);
    assert Zip(c, TurnedL(t)) == Zip(d, u);
    RecountTurn(root, pivot, left, d, u, rep);
  }

  lemma RotationSetL(h: Memory, root: Row, c: Ctx, t: Tree)
    requires t.Node? && t.left.Node? && Sound(h, root, Zip(c, t))
    ensures var p, l, o, b := t.row, t.left.row, Owner(c, root), Apex(t.left.right);
      && {p, l, o} <= h.Keys && h[p].left == l && h[p].parent == o && h[l].right == b
      && p != l && p != o && l != o && b !in {p, l, o} && (b == null || b in h)
      && LiftedL(h, RelinkedL(h, p), p, l, o, b)
  {
    Settled(h, root, c, t);
    RootKnown(h, c, root, t.row);
    assert Linked(h, t.left, t.row, true) && Distinct(t.left) &&
      Rows(t.left) == Rows(t.left.left) + {t.left.row} + Rows(t.left.right);
    RelinkedLLifts(h, t.row, t.left.row, Owner(c, root), Apex(t.left.right));
  }

  // ---------- rotations that lift the right child ----------

  /** The pointer updates of a rotation that lifts the right child. */
  ghost function RelinkedR(h: Memory, pivot: Row): Memory {
    var l := Get(h, pivot).right;
    var p, s, b := Get(h, pivot).parent, Get(h, pivot).fLeft, Get(h, l).left;
    var turned := Adopted(Hung(Hung(Adopted(h, l, p, s), p, s, l), pivot, false, b), b, pivot, false);
    Adopted(Hung(turned, l, true, pivot), pivot, l, true)
  }

  /** The cells those updates leave: `l` is lifted over `pivot`, and `b` changes sides. */
  ghost predicate LiftedR(h: Memory, g: Memory, pivot: Row, l: Row, p: Row, b: Row?) {
    && {pivot, l, p} <= h.Keys
    && SameElsewhere(h, g, {pivot, l, p, b})
    && g[pivot] == h[pivot].(right := b, parent := l, fLeft := true)
    && g[l] == h[l].(left := pivot, parent := p, fLeft := h[pivot].fLeft)
    && g[p] == (if h[pivot].fLeft then h[p].(left := l) else h[p].(right := l))
    && (b in h ==> g[b] == h[b].(parent := pivot, fLeft := false))
  }

  lemma LiftedRSameSizes(h: Memory, g: Memory, pivot: Row, l: Row, p: Row, b: Row?)
    requires LiftedR(h, g, pivot, l, p, b)
    ensures SameSizes(h, g, h.Keys) && SameHidden(h, g)
  {
  }

  lemma RelinkedRLifts(h: Memory, pivot: Row, l: Row, p: Row, b: Row?)
    requires {pivot, l, p} <= h.Keys && h[pivot].right == l && h[pivot].parent == p && h[l].left == b
    requires pivot != l && pivot != p && l != p && b !in {pivot, l, p} && (b == null || b in h)
    ensures LiftedR(h, RelinkedR(h, pivot), pivot, l, p, b)
  {
  }

  method RelinkR(pivot: Row, ghost rep: set<Row>)
    requires pivot in rep && pivot.right in rep && pivot.parent in rep
    requires pivot.right.left == null || pivot.right.left in rep
    requires pivot != pivot.right && pivot.parent != pivot && pivot.parent != pivot.right
    modifies rep`parent, rep`fLeft, rep`right, rep`left
    ensures Snap(rep) == RelinkedR(old(Snap(rep)), pivot)
  {
    var right := pivot.right;
    Adopt(right, pivot.parent, pivot.fLeft, rep);
    SetChild(pivot.parent, pivot.fLeft, right, rep);
    SetChild(pivot, false, right.left, rep);
    Adopt(right.left, pivot, false, rep);
    SetChild(right, true, pivot, rep);
    Adopt(pivot, right, true, rep);
  }

  lemma LiftedRPlaced(h: Memory, g: Memory, root: Row, c: Ctx, t: Tree)
    requires t.Node? && t.right.Node? && Apart(c, t, root) && Placed(h, c, t, root)
    requires LiftedR(h, g, t.row, t.right.row, Owner(c, root), Apex(t.right.left))
    ensures Placed(g, c, TurnedR(t), root)
  {
    var pivot, right, a, b, e := t.row, t.right.row, t.right.right, t.right.left, t.left;
    assert Distinct(t.right) && Linked(h, t.right, pivot, false) && Rows(t.right) == Rows(a) + {right} + Rows(b);
    Refilled(h, g, c, root, pivot, right, {pivot, right, Apex(b)});
    Untouched(h, g, a, right, false, {pivot, right, Owner(c, root), Apex(b)});
    Untouched(h, g, e, pivot, true, {pivot, right, Owner(c, root), Apex(b)});
    Rehung(h, g, b, right, true, pivot, false, {pivot, right, Owner(c, root)});
  }

  lemma TurnedRApart(root: Row, c: Ctx, t: Tree)
    requires t.Node? && t.right.Node? && Apart(c, t, root)
    ensures Apart(c, TurnedR(t), root) && Rows(TurnedR(t)) == Rows(t)
  {
    var l, r := t.right, TurnedR(t).left;
    assert Distinct(l) && Rows(l) == Rows(l.right) + {l.row} + Rows(l.left);
    assert Rows(r) == Rows(r.right) + {r.row} + Rows(r.left);
  }

  /** After the pointers have been turned, the counting walk can start at the pivot. */
  lemma LiftedRWalking(h: Memory, g: Memory, root: Row, c: Ctx, t: Tree)
    requires t.Node? && t.right.Node? && Sound(h, root, Zip(c, t))
    requires LiftedR(h, g, t.row, t.right.row, Owner(c, root), Apex(t.right.left))
    ensures Walking(g, root, t.row, InLeft(t.right.row, t.right.right, c), Node(t.left, t.row, t.right.left))
  {
    var right, a, b, e := t.right.row, t.right.right, t.right.left, t.left;
    Settled(h, root, c, t);
    LiftedRPlaced(h, g, root, c, t);
    LiftedRSizes(h, g, root, c, t);
    TurnedRApart(root, c, t);
    Climb(g, root, InLeft(right, a, c), Node(e, t.row, b));
  }

  lemma LiftedRSizes(h: Memory, g: Memory, root: Row, c: Ctx, t: Tree)
    requires t.Node? && t.right.Node? && Walking(h, root, t.row, c, t)
    requires LiftedR(h, g, t.row, t.right.row, Owner(c, root), Apex(t.right.left))
    ensures Exact(g, t.right.right) && Exact(g, t.right.left) && Exact(g, t.left) && SidesExact(g, c)
    ensures Sentinel(g, root)
  {
    assert Exact(h, t.right) && Rows(t.right) == Rows(t.right.right) + {t.right.row} + Rows(t.right.left);
    LiftedRSameSizes(h, g, t.row, t.right.row, Owner(c, root), Apex(t.right.left));
    ExactKept(h, g, t.right.right);
    ExactKept(h, g, t.right.left);
    ExactKept(h, g, t.left);
    SidesExactKept(h, g, c);
  }

  /** Rotation that lifts the right child of `pivot`. */
  method RotateR(root: Row, pivot: Row, ghost c: Ctx, ghost t: Tree, ghost rep: set<Row>)
    requires t.Node? && t.row == pivot && t.right.Node? && Sound(Snap(rep), root, Zip(c, t))
    modifies rep`parent, rep`fLeft, rep`right, rep`left, rep`height, rep`branchCount
    ensures Sound(Snap(rep), root, Zip(c, TurnedR(t)))
    ensures SameHidden(old(Snap(rep)), Snap(rep))
  {
    ghost var h := Snap(rep);
    RotationSetR(h, root, c, t);
    assert pivot.right == h[pivot].right && pivot.parent == h[pivot].parent && pivot.right.left == h[pivot.right].left;
    var right := pivot.right;
    RelinkR(pivot, rep);
    LiftedRWalking(h, Snap(rep), root, c, t);
    LiftedRSameSizes(h, Snap(rep), pivot, right, Owner(c, root), Apex(t.right.left));
    ghost var d, u := InLeft(right, t.right.right, c), Node(t.left, pivot, t.right.left);
    assert Zip(c, TurnedR(t)) == Zip(d, u);
    RecountTurn(root, pivot, right, d, u, rep);
  }

  lemma RotationSetR(h: Memory, root: Row, c: Ctx, t: Tree)
    requires t.Node? && t.right.Node? && Sound(h, root, Zip(c, t))
    ensures var p, l, o, b := t.row, t.right.row, Owner(c, root), Apex(t.right.left);
      && {p, l, o} <= h.Keys && h[p].right == l && h[p].parent == o && h[l].left == b
      && p != l && p != o && l != o && b !in {p, l, o} && (b == null || b in h)
      && LiftedR(h, RelinkedR(h, p), p, l, o, b)
  {
    Settled(h, root, c, t);
    RootKnown(h, c, root, t.row);
    assert Linked(h, t.right, t.row, false) && Distinct(t.right) &&
      Rows(t.right) == Rows(t.right.right) + {t.right.row} + Rows(t.right.left);
    RelinkedRLifts(h, t.row, t.right.row, Owner(c, root), Apex(t.right.left));
  }
}
