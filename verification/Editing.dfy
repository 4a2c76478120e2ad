/** Linking a row into a sound tree and cutting one out, with the repair walks. */
module Editing {
  import opened RowOrder
  import opened RowTree
  import opened Memory
  import opened Counting
  import opened Avl
  import opened Rotations
  import opened Rebalancing
  import opened Navigation
  import opened Search

  // ---------- predecessors ----------

  /** The row in front of the hole of `c`: the last one before it, or the sentinel. */
  ghost function RowBefore(c: Ctx, root: Row): Row {
    if Before(c) == [] then root else Before(c)[|Before(c)| - 1]
  }

  /** Climbs out of left subtrees, then one step more: to the row in front of the subtree `t`. */
  method ClimbLeft(root: Row, row: Row, ghost c: Ctx, ghost t: Tree, ghost rep: set<Row>) returns (before: Row)
    requires Sound(Snap(rep), root, Zip(c, t)) && t.Node? && t.row == row
    ensures before == RowBefore(c, root)
  {
    ghost var h := Snap(rep);
    ghost var d, u := c, t;
    var cur: Row := row;
    Local(h, root, d, u);
    assert CellOf(cur) == h[cur];
    while cur.fLeft
      invariant Zip(d, u) == Zip(c, t) && u.Node? && u.row == cur && Before(d) == Before(c)
      invariant cur in h && CellOf(cur) == h[cur] && h[cur].fLeft == d.InLeft? && h[cur].parent == Owner(d, root)
      decreases d
    {
      cur := cur.parent;
      d, u := d.up, Wrap(d, u);
      Local(h, root, d, u);
      assert CellOf(cur) == h[cur];
    }
    before := cur.parent;
  }

  /** The key of the last row of a subtree. */
  method Rightmost(root: Row, row: Row, ghost c: Ctx, ghost t: Tree, ghost rep: set<Row>) returns (last: Row)
    requires Sound(Snap(rep), root, Zip(c, t)) && t.Node? && t.row == row
    ensures InOrder(t) != [] && last == InOrder(t)[|InOrder(t)| - 1]
  {
    ghost var h := Snap(rep);
    ghost var d, u := c, t;
    last := row;
    Local(h, root, d, u);
    assert CellOf(last) == h[last];
    while last.right != null
      invariant Zip(d, u) == Zip(c, t) && u.Node? && u.row == last
      invariant last in h && CellOf(last) == h[last] && h[last].right == Apex(u.right)
      invariant InOrder(t)[|InOrder(t)| - 1] == InOrder(u)[|InOrder(u)| - 1]
      decreases u
    {
      last := last.right;
      d, u := InRight(u.left, u.row, d), u.right;
      Local(h, root, d, u);
      assert CellOf(last) == h[last];
    }
  }

  // ---------- insertion ----------

  /** Memory `g` is `h` with a new row hung into the hole of `c`. */
  ghost predicate HungIn(h: Memory, g: Memory, root: Row, c: Ctx, row: Row) {
    var p := Owner(c, root);
    && p in h && row !in h && g.Keys == h.Keys + {row}
    && g[p] == (if c.InLeft? then h[p].(left := row) else h[p].(right := row))
    && g[row].left == null && g[row].right == null && g[row].parent == p && g[row].fLeft == c.InLeft?
    && forall r :: r in h && r != p ==> g[r] == h[r]
  }

  /** A free child slot of a sound tree. */
  lemma HoleSettled(h: Memory, root: Row, c: Ctx)
    requires Sound(h, root, Zip(c, Nil))
    ensures Roaming(h, root, c, Nil) && SidesExact(h, c)
  {
    ApartZip(c, Nil, root);
    ZipRows(c, Nil);
    PlacedZip(h, c, Nil, root);
    ExactUnzip(h, c, Nil);
  }

  lemma HungInPlaced(h: Memory, g: Memory, root: Row, c: Ctx, row: Row)
    requires Roaming(h, root, c, Nil) && HungIn(h, g, root, c, row)
    ensures Placed(g, c, Node(Nil, row, Nil), root)
  {
    var h2 := h[row := g[row]];
    CtxLinkedKept(h, h2, c, root, null);
    Refilled(h2, g, c, root, null, row, {});
    assert Linked(g, Nil, row, true) && Linked(g, Nil, row, false);
    assert Linked(g, Node(Nil, row, Nil), Owner(c, root), c.InLeft?);
  }

  lemma HungInWalking(h: Memory, g: Memory, root: Row, c: Ctx, row: Row)
    requires Sound(h, root, Zip(c, Nil)) && HungIn(h, g, root, c, row)
    ensures Walking(g, root, row, c, Node(Nil, row, Nil))
  {
    HoleSettled(h, root, c);
    HungInPlaced(h, g, root, c, row);
    SidesExactKept(h, g, c);
  }

  lemma LeafRepairs(c: Ctx, row: Row)
    requires Balanced(Zip(c, Nil))
    ensures Repairing(c, Node(Nil, row, Nil), 0, true)
    ensures InOrder(Zip(c, Node(Nil, row, Nil))) == Before(c) + [row] + After(c)
  {
    BalancedUnzip(c, Nil);
    ZipInOrder(c, Node(Nil, row, Nil));
    assert InOrder(Node(Nil, row, Nil)) == [row];
  }

  /** The pointer part of an insertion. */
  method Hang(root: Row, owner: Row, side: bool, row: Row, ghost c: Ctx, ghost rep: set<Row>)
    requires owner in rep && owner == Owner(c, root) && side == c.InLeft?
    requires row !in rep && row.left == null && row.right == null
    modifies owner`left, owner`right, row`parent, row`fLeft
    ensures HungIn(old(Snap(rep)), Snap(rep + {row}), root, c, row)
  {
    SetChild(owner, side, row, rep);
    row.parent, row.fLeft := owner, side;
  }

  /** Links a row into a free child slot and repairs the tree. */
  method LinkRow(root: Row, owner: Row, side: bool, row: Row, ghost c: Ctx, ghost rep: set<Row>)
    returns (ghost result: Tree)
    requires Sound(Snap(rep), root, Zip(c, Nil)) && Balanced(Zip(c, Nil))
    requires owner in rep && owner == Owner(c, root) && side == c.InLeft?
    requires row !in rep && row.left == null && row.right == null
    modifies rep`parent, rep`fLeft, rep`left, rep`right, rep`height, rep`branchCount
    modifies row`parent, row`fLeft, row`left, row`right, row`height, row`branchCount
    ensures Sound(Snap(rep + {row}), root, result) && Balanced(result)
    ensures InOrder(result) == Before(c) + [row] + After(c)
  {
    ghost var h, all := Snap(rep), rep + {row};
    Hang(root, owner, side, row, c, rep);
    HungInWalking(h, Snap(all), root, c, row);
    UpdateCounts(root, row, c, Node(Nil, row, Nil), all);
    LeafRepairs(c, row);
    result := RestructureRecursive(root, row, c, Node(Nil, row, Nil), 0, true, all);
  }

  /** Links a new row behind all rows that are not greater, and reports the row in front of it. */
  method Insert(k: Collation, root: Row, row: Row, ghost layout: nat -> Flags, ghost tree: Tree, ghost rep: set<Row>)
    returns (prev: Key, ghost result: Tree, ghost n: nat)
    requires Sound(Snap(rep), root, tree) && Balanced(tree) && Ordered(k, layout, InOrder(tree))
    requires Conforms(layout, row.cols)
    requires root.isRoot && !row.isRoot && row !in rep && row.left == null && row.right == null
    modifies rep`parent, rep`fLeft, rep`left, rep`right, rep`height, rep`branchCount
    modifies row`parent, row`fLeft, row`left, row`right, row`height, row`branchCount
    ensures Sound(Snap(rep + {row}), root, result) && Balanced(result)
    ensures IsSlot(k, InOrder(tree), row.cols, n) && InOrder(result) == InOrder(tree)[..n] + [row] + InOrder(tree)[n..]
    ensures prev == if n == 0 then root.key else InOrder(tree)[n - 1].key
    ensures HiddenKept(old(Snap(rep)), Snap(rep + {row}))
  {
    var owner, side, c := FindSlot(k, root, row, layout, tree, rep);
    prev := PrecedingKey(root, owner, side, c, rep);
    n := |Before(c)|;
    result := LinkRow(root, owner, side, row, c, rep);
    SlotOrder(root, tree, c, row, n, result);
  }

  /** A free slot splits the order. */
  lemma SlotOrder(root: Row, tree: Tree, c: Ctx, row: Row, n: nat, result: Tree)
    requires tree == Zip(c, Nil) && n == |Before(c)| && InOrder(result) == Before(c) + [row] + After(c)
    ensures n <= |InOrder(tree)| && InOrder(result) == InOrder(tree)[..n] + [row] + InOrder(tree)[n..]
    ensures RowBefore(c, root) == if n == 0 then root else InOrder(tree)[n - 1]
  {
    ZipInOrder(c, Nil);
    assert InOrder(tree) == Before(c) + After(c);
  }

  /** The key in front of the free slot that `FindSlot` found. */
  method PrecedingKey(root: Row, owner: Row, side: bool, ghost c: Ctx, ghost rep: set<Row>) returns (key: Key)
    requires Sound(Snap(rep), root, Zip(c, Nil)) && owner == Owner(c, root) && side == c.InLeft?
    ensures key == RowBefore(c, root).key
  {
    if side {
      var before := ClimbLeft(root, owner, c.up, Wrap(c, Nil), rep);
      key := before.key;
    } else {
      key := owner.key;
    }
  }
}
