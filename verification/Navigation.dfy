/** Walks over a sound tree that read and do not write: successor, rank, select. */
module Navigation {
  import opened RowTree
  import opened Memory
  import opened Counting

  /** What the fields of a row say about its place in the tree. */
  lemma Local(h: Memory, root: Row, c: Ctx, t: Tree)
    requires t.Node? && Sound(h, root, Zip(c, t))
    ensures t.row in h && t.row != root && (!c.Top? ==> c.row in h && c.row != root)
    ensures h[t.row].left == Apex(t.left) && h[t.row].right == Apex(t.right)
    ensures h[t.row].parent == Owner(c, root) && h[t.row].fLeft == c.InLeft?
    ensures h[t.row].count == Count(h, t) && CountOf(h, Apex(t.left)) == Count(h, t.left)
    ensures Rows(t) <= h.Keys && Exact(h, t)
  {
    Settled(h, root, c, t);
    ExactUnzip(h, c, t);
  }

  /** Position of the root of `t` in the in-order sequence of the whole tree. */
  ghost function Pos(c: Ctx, t: Tree): nat
    requires t.Node?
  {
    |Before(c)| + |InOrder(t.left)|
  }

  lemma PosAt(c: Ctx, t: Tree)
    requires t.Node?
    ensures Pos(c, t) < |InOrder(Zip(c, t))| && InOrder(Zip(c, t))[Pos(c, t)] == t.row
  {
    ZipInOrder(c, t);
  }

  /** A row has only one position. */
  lemma PosUnique(root: Row, h: Memory, c: Ctx, t: Tree, i: nat)
    requires t.Node? && Sound(h, root, Zip(c, t)) && i < |InOrder(Zip(c, t))| && InOrder(Zip(c, t))[i] == t.row
    ensures Pos(c, t) == i
  {
    DistinctNoDup(Zip(c, t));
    PosAt(c, t);
  }

  /** The rows that are not hidden, in order. */
  ghost function Shown(h: Memory, s: seq<Row>): seq<Row> {
    if s == [] then []
    else Shown(h, s[..|s| - 1]) + if Get(h, s[|s| - 1]).hidden then [] else [s[|s| - 1]]
  }

  lemma {:induction false} ShownConcat(h: Memory, a: seq<Row>, b: seq<Row>)
    ensures Shown(h, a + b) == Shown(h, a) + Shown(h, b)
    decreases b
  {
    if b == [] {
      assert a + b == a;
    } else {
      ShownConcat(h, a, b[..|b| - 1]);
      assert (a + b)[..|a + b| - 1] == a + b[..|b| - 1];
    }
  }

  lemma {:induction false} CountIsShown(h: Memory, t: Tree)
    ensures Count(h, t) == |Shown(h, InOrder(t))|
  {
    if t.Node? {
      CountIsShown(h, t.left);
      CountIsShown(h, t.right);
      ShownConcat(h, InOrder(t.left) + [t.row], InOrder(t.right));
      ShownConcat(h, InOrder(t.left), [t.row]);
    }
  }

  /** Visible rows before position `i`. */
  ghost function Rank(h: Memory, s: seq<Row>, i: nat): nat
    requires i <= |s|
  {
    |Shown(h, s[..i])|
  }

  lemma RankAt(h: Memory, c: Ctx, t: Tree)
    requires t.Node?
    ensures Pos(c, t) <= |InOrder(Zip(c, t))|
    ensures Rank(h, InOrder(Zip(c, t)), Pos(c, t)) == |Shown(h, Before(c))| + Count(h, t.left)
  {
    ZipInOrder(c, t);
    var s := InOrder(Zip(c, t));
    assert s[..Pos(c, t)] == Before(c) + InOrder(t.left);
    ShownConcat(h, Before(c), InOrder(t.left));
    CountIsShown(h, t.left);
  }

  /** The first row of a subtree. */
  method Leftmost(root: Row, row: Row, ghost c: Ctx, ghost t: Tree, ghost rep: set<Row>) returns (first: Row)
    requires Sound(Snap(rep), root, Zip(c, t)) && t.Node? && t.row == row
    ensures |Before(c)| < |InOrder(Zip(c, t))| && first == InOrder(Zip(c, t))[|Before(c)|]
  {
    ghost var h := Snap(rep);
    ghost var d, u := c, t;
    first := row;
    Local(h, root, d, u);
    while first.left != null
      invariant Zip(d, u) == Zip(c, t) && u.Node? && first == u.row && Before(d) == Before(c)
      invariant first in h && h[first].left == Apex(u.left) && CellOf(first) == h[first]
      decreases u
    {
      first := first.left;
      d, u := InLeft(u.row, u.right, d), u.left;
      Local(h, root, d, u);
      assert CellOf(first) == h[first];
    }
    PosAt(d, u);
  }

  /** The row that follows a subtree, found by climbing; null when the subtree ends the table. */
  method Following(root: Row, row: Row, ghost c: Ctx, ghost t: Tree, ghost rep: set<Row>) returns (next: Row?)
    requires Sound(Snap(rep), root, Zip(c, t))
    requires if row == root then c.Top? else t.Node? && t.row == row
    ensures var n := |Before(c)| + |InOrder(t)|;
      n <= |InOrder(Zip(c, t))| && next == if n < |InOrder(Zip(c, t))| then InOrder(Zip(c, t))[n] else null
  {
    ghost var h := Snap(rep);
    ghost var d, u := c, t;
    ZipInOrder(c, t);
    next := row;
    while next != null && !next.fLeft
      invariant Zip(d, u) == Zip(c, t) && |Before(d)| + |InOrder(u)| == |Before(c)| + |InOrder(t)|
      invariant next == null || next == root ==> d.Top?
      invariant next != null && next != root ==> u.Node? && next == u.row
      decreases if next == null then 0 else if next == root then 1 else 2, d
    {
      assert next in h && CellOf(next) == h[next] by {
        if next != root { Local(h, root, d, u); }
      }
      if next != root {
        Local(h, root, d, u);
        if !d.Top? {
          d, u := d.up, Wrap(d, u);
        }
      }
      next := next.parent;
    }
    if next != null {
      assert next != root by { assert CellOf(root) == h[root]; }
      Local(h, root, d, u);
      assert CellOf(next) == h[next];
      next := next.parent;
      ZipInOrder(d, u);
    }
  }

  /** The row after `row`, where position -1 is the sentinel; null after the last row. */
  method Successor(root: Row, row: Row, ghost i: int, ghost tree: Tree, ghost rep: set<Row>) returns (next: Row?)
    requires Sound(Snap(rep), root, tree)
    requires -1 <= i < |InOrder(tree)| && row == if i < 0 then root else InOrder(tree)[i]
    ensures next == if i + 1 < |InOrder(tree)| then InOrder(tree)[i + 1] else null
  {
    ghost var h := Snap(rep);
    ghost var d, u := Top, tree;
    if i >= 0 {
      d, u := Find(h, root, tree, i);
      Local(h, root, d, u);
    }
    assert CellOf(row) == h[row];
    if row.right != null {
      if i >= 0 {
        d, u := InRight(u.left, u.row, d), u.right;
      }
      next := Leftmost(root, row.right, d, u, rep);
    } else {
      next := Following(root, row, d, u, rep);
    }
  }

  /** The context and subtree of the row at one position. */
  lemma Find(h: Memory, root: Row, tree: Tree, i: nat) returns (c: Ctx, t: Tree)
    requires Sound(h, root, tree) && i < |InOrder(tree)|
    ensures t.Node? && t.row == InOrder(tree)[i] && Zip(c, t) == tree && Pos(c, t) == i
  {
    InOrderRows(tree);
    var row := InOrder(tree)[i];
    assert row in (set r | r in InOrder(tree));
    var z := Locate(Top, tree, row);
    c, t := z.0, z.1;
    PosUnique(root, h, c, t, i);
  }

  /** Every row of the order is linked. */
  lemma RowsKnown(h: Memory, root: Row, tree: Tree)
    requires Sound(h, root, tree)
    ensures forall i :: 0 <= i < |InOrder(tree)| ==> InOrder(tree)[i] in h && InOrder(tree)[i] in Rows(tree)
  {
    InOrderRows(tree);
    forall i | 0 <= i < |InOrder(tree)| ensures InOrder(tree)[i] in Rows(tree) {
      assert InOrder(tree)[i] in (set r | r in InOrder(tree));
    }
  }
}
