/** The AVL repair walk: double rotations, one restructuring step, and the loop over ancestors. */
module Rebalancing {
  import opened RowTree
  import opened Memory
  import opened Counting
  import opened Avl
  import opened Rotations

  /** `pivot` is the left child of the row to be lowered. */
  method RotateLR(root: Row, pivot: Row, ghost c: Ctx, ghost t: Tree, ghost rep: set<Row>)
    requires t.Node? && t.left.Node? && t.left.row == pivot && t.left.right.Node? && Sound(Snap(rep), root, Zip(c, t))
    modifies rep`parent, rep`fLeft, rep`left, rep`right, rep`height, rep`branchCount
    ensures Sound(Snap(rep), root, Zip(c, TurnedL(Node(TurnedR(t.left), t.row, t.right))))
    ensures SameHidden(old(Snap(rep)), Snap(rep))
  {
    ghost var h := Snap(rep);
    ghost var d := InLeft(t.row, t.right, c);
    Settled(h, root, d, t.left);
    assert pivot.parent == h[pivot].parent;
    var parent := pivot.parent;
    RotateR(root, pivot, d, t.left, rep);
    RotateL(root, parent, c, Node(TurnedR(t.left), t.row, t.right), rep);
  }

  /** `pivot` is the right child of the row to be lowered. */
  method RotateRL(root: Row, pivot: Row, ghost c: Ctx, ghost t: Tree, ghost rep: set<Row>)
    requires t.Node? && t.right.Node? && t.right.row == pivot && t.right.left.Node? && Sound(Snap(rep), root, Zip(c, t))
    modifies rep`parent, rep`fLeft, rep`left, rep`right, rep`height, rep`branchCount
    ensures Sound(Snap(rep), root, Zip(c, TurnedR(Node(t.left, t.row, TurnedL(t.right)))))
    ensures SameHidden(old(Snap(rep)), Snap(rep))
  {
    ghost var h := Snap(rep);
    ghost var d := InRight(t.left, t.row, c);
    Settled(h, root, d, t.right);
    assert pivot.parent == h[pivot].parent;
    var parent := pivot.parent;
    RotateL(root, pivot, d, t.right, rep);
    RotateR(root, parent, c, Node(t.left, t.row, TurnedL(t.right)), rep);
  }

  method GetBalance(pivot: Row?, ghost t: Tree, ghost rep: set<Row>) returns (balance: int)
    requires pivot == Apex(t) && Rows(t) <= rep && Exact(Snap(rep), t)
    requires t.Node? ==> pivot.left == Apex(t.left) && pivot.right == Apex(t.right)
    ensures balance == Balance(t)
  {
    balance := 0;
    if pivot != null {
      ghost var h := Snap(rep);
      assert pivot.left != null ==> pivot.left.height == h[pivot.left].height;
      assert pivot.right != null ==> pivot.right.height == h[pivot.right].height;
      if pivot.left != null {
        balance := balance + pivot.left.height;
      }
      if pivot.right != null {
        balance := balance - pivot.right.height;
      }
    }
  }

  method Restructure(root: Row, pivot: Row, ghost c: Ctx, ghost t: Tree, ghost rep: set<Row>)
    requires t.Node? && t.row == pivot && Sound(Snap(rep), root, Zip(c, t))
    modifies rep`parent, rep`fLeft, rep`left, rep`right, rep`height, rep`branchCount
    ensures Sound(Snap(rep), root, Zip(c, Restructured(t)))
    ensures SameHidden(old(Snap(rep)), Snap(rep))
  {
    ghost var h := Snap(rep);
    Settled(h, root, c, t);
    ChildLinks(h, t, Owner(c, root), c.InLeft?);
    ZipRows(c, t);
    assert CellOf(pivot) == h[pivot];
    assert pivot.left != null ==> CellOf(pivot.left) == h[pivot.left];
    assert pivot.right != null ==> CellOf(pivot.right) == h[pivot.right];
    var balance := GetBalance(pivot, t, rep);
    if balance > 1 {
      balance := GetBalance(pivot.left, t.left, rep);
      if balance >= 0 {
        RotateL(root, pivot, c, t, rep);
      } else {
        RotateLR(root, pivot.left, c, t, rep);
      }
    } else if balance < -1 {
      balance := GetBalance(pivot.right, t.right, rep);
      if balance <= 0 {
        RotateR(root, pivot, c, t, rep);
      } else {
        RotateRL(root, pivot.right, c, t, rep);
      }
    }
  }

  lemma ChildLinks(h: Memory, t: Tree, p: Row, side: bool)
    requires t.Node? && Linked(h, t, p, side)
    ensures t.row in h && h[t.row].left == Apex(t.left) && h[t.row].right == Apex(t.right)
    ensures t.left.Node? ==>
      t.left.row in h && h[t.left.row].left == Apex(t.left.left) && h[t.left.row].right == Apex(t.left.right)
    ensures t.right.Node? ==>
      t.right.row in h && h[t.right.row].left == Apex(t.right.left) && h[t.right.row].right == Apex(t.right.right)
  {
    assert Linked(h, t.left, t.row, true) && Linked(h, t.right, t.row, false);
  }

  /** Where the walk stands after `Restructure` on the root of `t`: one step up. */
  lemma ParentAfter(h: Memory, root: Row, c: Ctx, t: Tree)
    requires t.Node? && Sound(h, root, Zip(c, Restructured(t)))
    ensures t.row in h
    ensures h[t.row].parent == if Restructured(t) == t then Owner(c, root) else Restructured(t).row
    ensures Restructured(t).row != root && (!c.Top? ==> c.row != root)
  {
    var u := Restructured(t);
    Settled(h, root, c, u);
    assert Linked(h, u, Owner(c, root), c.InLeft?);
    assert Linked(h, u.left, u.row, true) && Linked(h, u.right, u.row, false);
  }

  /** What the repair walk knows: `u` can be mended, and then fits under its context. */
  ghost predicate Repairing(c: Ctx, u: Tree, h: nat, deep: bool) {
    CtxBalanced(c, h) && Mendable(u, h) && (deep ==> Balanced(Restructured(u)))
  }

  /** The height the subtree around a hole of height `h` had. */
  ghost function Raised(c: Ctx, h: nat): nat
    requires !c.Top?
  {
    1 + Max(h, Height(if c.InLeft? then c.right else c.left))
  }

  /** One round of the repair walk on values. */
  lemma RepairStep(c: Ctx, u: Tree, h: nat, deep: bool)
    requires Repairing(c, u, h, deep)
    ensures var v := Restructured(u);
      && InOrder(Zip(c, v)) == InOrder(Zip(c, u))
      && (deep && c.Top? ==> Balanced(v))
      && (Level(u) ==> v == u)
      && if v != u then Restructured(v) == v && Repairing(c, v, h, deep)
         else !c.Top? ==> Repairing(c.up, Wrap(c, v), Raised(c, h), deep) &&
                          (Height(u) == h ==> Level(Wrap(c, v)) && Height(Wrap(c, v)) == Raised(c, h))
  {
    var v := Restructured(u);
    RestructuredInOrder(u);
    ZipInOrder(c, u);
    ZipInOrder(c, v);
    if v == u && !c.Top? {
      MendedAbove(c, v, h);
    }
  }

  /**
   The repair walk from `row` to the sentinel.  `h` is the height the subtree of `row`
   had when its ancestors were balanced; `deep` says that its inside is balanced too.
   The sentinel itself is never restructured.
   */
  method RestructureRecursive(
    root: Row, row: Row, ghost c: Ctx, ghost t: Tree, ghost h: nat, ghost deep: bool, ghost rep: set<Row>)
    returns (ghost result: Tree)
    requires Sound(Snap(rep), root, Zip(c, t))
    requires if row == root then deep ==> Balanced(Zip(c, t)) else t.Node? && t.row == row && Repairing(c, t, h, deep)
    modifies rep`parent, rep`fLeft, rep`left, rep`right, rep`height, rep`branchCount
    ensures Sound(Snap(rep), root, result) && SameHidden(old(Snap(rep)), Snap(rep))
    ensures InOrder(result) == InOrder(Zip(c, t))
    ensures deep ==> Balanced(result)
    ensures row == root || (Level(t) && Height(t) == h) ==> result == Zip(c, t)
  {
    result := Zip(c, t);
    var cur: Row? := row;
    ghost var d, u, k := c, t, h;
    while cur != root && cur != null
      invariant Sound(Snap(rep), root, result) && SameHidden(old(Snap(rep)), Snap(rep))
      invariant InOrder(result) == InOrder(Zip(c, t))
      invariant cur != null
      invariant if cur == root then deep ==> Balanced(result)
                else u.Node? && u.row == cur && result == Zip(d, u) && Repairing(d, u, k, deep)
      invariant row == root || (Level(t) && Height(t) == h) ==>
        result == Zip(c, t) && (cur != root ==> Level(u) && Height(u) == k)
      decreases cur != root, d, u.Node? && Restructured(u) != u
    {
      ghost var v := Restructured(u);
      RepairStep(d, u, k, deep);
      Restructure(root, cur, d, u, rep);
      ParentAfter(Snap(rep), root, d, u);
      assert cur.parent == Snap(rep)[cur].parent;
      cur := cur.parent;
      result := Zip(d, v);
      if v != u {
        u := v;
      } else if !d.Top? {
        d, u, k := d.up, Wrap(d, v), Raised(d, k);
      }
    }
  }
}
