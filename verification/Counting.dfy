/** The walk that recomputes heights and counts from a row up to the sentinel. */
module Counting {
  import opened RowTree
  import opened Memory

  ghost function HeightOf(h: Memory, r: Row?): int {
    if r == null then 0 else Get(h, r).height
  }

  ghost function CountOf(h: Memory, r: Row?): int {
    if r == null then 0 else Get(h, r).count
  }

  /** The greater height of two children. */
  ghost function Taller(h: Memory, left: Row?, right: Row?): int {
    if right != null && Get(h, right).height > HeightOf(h, left) then Get(h, right).height else HeightOf(h, left)
  }

  /** Memory after one round of the counting loop on `r`. */
  ghost function Recounted(h: Memory, root: Row, r: Row): Memory {
    var own := Get(h, r);
    h[r := own.(height := (if r == root then 0 else 1) + Taller(h, own.left, own.right),
                count := (if r == root then 0 else Weight(h, r)) + CountOf(h, own.left) + CountOf(h, own.right))]
  }

  method Recount(root: Row, row: Row, ghost rep: set<Row>)
    requires row.left != null ==> row.left in rep
    requires row.right != null ==> row.right in rep
    modifies row`height, row`branchCount
    ensures Snap(rep) == if row in rep then Recounted(old(Snap(rep)), root, row) else old(Snap(rep))
  {
    var height, count := 1, 1;
    if row == root {
      height, count := 0, 0;
    } else if row.hidden {
      count := 0;
    }
    if row.left != null {
      count := count + row.left.branchCount;
    }
    if row.right != null {
      count := count + row.right.branchCount;
    }
    var h := 0;
    if row.left != null {
      h := row.left.height;
    }
    if row.right != null {
      h := if row.right.height > h then row.right.height else h;
    }
    row.height, row.branchCount := height + h, count;
  }

  /** The subtree of a row, seen from the row above it. */
  ghost function Wrap(c: Ctx, t: Tree): Tree
    requires !c.Top?
  {
    if c.InLeft? then Node(t, c.row, c.right) else Node(c.left, c.row, t)
  }

  lemma Climb(h: Memory, root: Row, c: Ctx, t: Tree)
    requires !c.Top?
    ensures Apart(c, t, root) <==> Apart(c.up, Wrap(c, t), root)
    ensures Placed(h, c, t, root) <==> Placed(h, c.up, Wrap(c, t), root)
    ensures Everyone(root, c, t) == Everyone(root, c.up, Wrap(c, t))
  {
  }

  /** The state of the counting walk: rows below `cur` are exact, and so are the side trees. */
  ghost predicate Walking(h: Memory, root: Row, cur: Row, c: Ctx, t: Tree) {
    && Apart(c, t, root) && h.Keys == Everyone(root, c, t)
    && Sentinel(h, root) && Placed(h, c, t, root) && SidesExact(h, c)
    && if cur == root then c.Top? && Exact(h, t)
       else t.Node? && cur == t.row && Exact(h, t.left) && Exact(h, t.right)
  }

  /** A subtree of a sound tree can be counted again. */
  lemma Settled(h: Memory, root: Row, c: Ctx, t: Tree)
    requires t.Node? && Sound(h, root, Zip(c, t))
    ensures Walking(h, root, t.row, c, t) && Exact(h, t)
  {
    ApartZip(c, t, root);
    ZipRows(c, t);
    PlacedZip(h, c, t, root);
    ExactUnzip(h, c, t);
  }

  lemma RecountedNode(h: Memory, root: Row, t: Tree)
    requires t.Node? && t.row != root && Distinct(t)
    requires Get(h, t.row).left == Apex(t.left) && Get(h, t.row).right == Apex(t.right)
    requires Exact(h, t.left) && Exact(h, t.right)
    ensures Exact(Recounted(h, root, t.row), t)
  {
    var g := Recounted(h, root, t.row);
    ExactKept(h, g, t.left);
    ExactKept(h, g, t.right);
  }

  lemma CountStep(h: Memory, root: Row, c: Ctx, t: Tree)
    requires t.Node? && t.row != root && Walking(h, root, t.row, c, t)
    ensures Get(h, t.row).parent == Owner(c, root)
    ensures var g := Recounted(h, root, t.row);
      if c.Top? then Walking(g, root, root, c, t) else Walking(g, root, c.row, c.up, Wrap(c, t))
  {
    var g := Recounted(h, root, t.row);
    RecountedNode(h, root, t);
    LinkedKept(h, g, t, Owner(c, root), c.InLeft?);
    CtxLinkedKept(h, g, c, root, t.row);
    SidesExactKept(h, g, c);
    if !c.Top? {
      Climb(g, root, c, t);
    }
  }

  /** The sentinel counts the whole tree. */
  lemma RecountedRoot(h: Memory, root: Row, t: Tree)
    requires Walking(h, root, root, Top, t)
    ensures Sound(Recounted(h, root, root), root, t)
  {
    var g := Recounted(h, root, root);
    ExactKept(h, g, t);
    LinkedKept(h, g, t, root, false);
  }

  /** Only heights and counts differ. */
  ghost predicate Resized(h: Memory, g: Memory) {
    h.Keys == g.Keys && forall r :: r in h ==> g[r] == h[r].(height := g[r].height, count := g[r].count)
  }

  lemma ResizedStep(h: Memory, g: Memory, root: Row, r: Row)
    requires Resized(h, g) && r in g
    ensures Resized(h, Recounted(g, root, r))
  {
  }

  // ---------- a walk that starts at a row outside the tree ----------

  /** The walk without any promise about sizes. */
  ghost predicate Roaming(h: Memory, root: Row, c: Ctx, t: Tree) {
    Apart(c, t, root) && h.Keys == Everyone(root, c, t) && Sentinel(h, root) && Placed(h, c, t, root)
  }

  lemma RoamStep(h: Memory, root: Row, c: Ctx, t: Tree)
    requires t.Node? && Roaming(h, root, c, t)
    ensures t.row in h && t.row != root && h[t.row].parent == Owner(c, root)
    ensures h[t.row].left == Apex(t.left) && h[t.row].right == Apex(t.right)
    ensures (!c.Top? ==> c.row in h && c.row != root)
    ensures var g := Recounted(h, root, t.row);
      Roaming(g, root, c, t) && (!c.Top? ==> Roaming(g, root, c.up, Wrap(c, t)))
  {
    var g := Recounted(h, root, t.row);
    LinkedKept(h, g, t, Owner(c, root), c.InLeft?);
    CtxLinkedKept(h, g, c, root, t.row);
    if !c.Top? {
      Climb(g, root, c, t);
    }
  }

  /** The rows on the path above the hole. */
  ghost function Spine(c: Ctx): set<Row> {
    if c.Top? then {} else {c.row} + Spine(c.up)
  }

  /** Cells outside `rows` are the same. */
  ghost predicate SameOutside(h: Memory, g: Memory, rows: set<Row>) {
    h.Keys == g.Keys && forall r :: r in h && r !in rows ==> g[r] == h[r]
  }

  lemma {:induction false} SpineRows(c: Ctx)
    ensures Spine(c) <= CtxRows(c)
  {
    if !c.Top? {
      SpineRows(c.up);
    }
  }

  /** Recounting the path leaves the side trees exact. */
  lemma {:induction false} SidesOffSpine(h: Memory, g: Memory, root: Row, c: Ctx, rows: set<Row>)
    requires SidesExact(h, c) && CtxDistinct(c) && CtxRows(c) <= h.Keys
    requires SameOutside(h, g, rows) && rows * CtxRows(c) <= Spine(c)
    ensures SidesExact(g, c)
    decreases c
  {
    if !c.Top? {
      SpineRows(c.up);
      var side := if c.InLeft? then c.right else c.left;
      assert Rows(side) !! rows;
      ExactKept(h, g, side);
      SidesOffSpine(h, g, root, c.up, rows);
    }
  }

  /** Where a walk that began at the stranger `row`, in front of the hole of `c`, stands. */
  ghost predicate Straying(h0: Memory, h: Memory, root: Row, row: Row, cur: Row, c: Ctx, t: Tree, d: Ctx, u: Tree) {
    if cur == row then d == c && u == t && h == h0 && Roaming(h, root, c, t)
    else
      && Roaming(h, root, d, u) && SameOutside(h0, h, Spine(c) + {root}) && Spine(d) <= Spine(c)
      && if cur == root then d.Top? else u.Node? && cur == u.row && cur in Spine(c)
  }

  lemma StrayStep(h0: Memory, h: Memory, root: Row, row: Row, cur: Row, c: Ctx, t: Tree, d: Ctx, u: Tree)
    requires Straying(h0, h, root, row, cur, c, t, d, u) && row !in h && cur != root
    ensures cur != row ==> cur in h && h[cur].parent == Owner(d, root) &&
                           h[cur].left == Apex(u.left) && h[cur].right == Apex(u.right)
    ensures var g := if cur == row then h else Recounted(h, root, cur);
      Straying(h0, g, root, row, Owner(d, root), c, t, if d.Top? then d else d.up, if d.Top? then u else Wrap(d, u))
  {
    if cur != row {
      RoamStep(h, root, d, u);
    } else if !d.Top? {
      Climb(h, root, d, u);
    }
  }

  /** Subtree roots are rows of the memory. */
  lemma ApexKnown(h: Memory, root: Row, c: Ctx, t: Tree)
    requires h.Keys == Everyone(root, c, t)
    ensures t.Node? ==> t.row in h && (t.left.Node? ==> t.left.row in h) && (t.right.Node? ==> t.right.row in h)
  {
    if t.Node? {
      assert t.left.Node? ==> t.left.row in Rows(t.left);
      assert t.right.Node? ==> t.right.row in Rows(t.right);
    }
  }

  lemma RecountedRoaming(h: Memory, root: Row, t: Tree)
    requires Roaming(h, root, Top, t)
    ensures Roaming(Recounted(h, root, root), root, Top, t)
  {
    LinkedKept(h, Recounted(h, root, root), t, root, false);
  }

  /** The walk from `row` in the hole of `c` has come to `cur`. */
  ghost predicate Updating(h0: Memory, h: Memory, root: Row, row: Row, cur: Row, c: Ctx, t: Tree, d: Ctx, u: Tree) {
    && Zip(d, u) == Zip(c, t) && Resized(h0, h)
    && if row in h0 then Walking(h, root, cur, d, u) else Straying(h0, h, root, row, cur, c, t, d, u)
  }

  lemma UpdateStep(h0: Memory, h: Memory, root: Row, row: Row, cur: Row, c: Ctx, t: Tree, d: Ctx, u: Tree)
    requires Updating(h0, h, root, row, cur, c, t, d, u) && cur != root
    ensures cur in h || cur == row
    ensures cur in h ==> h[cur].parent == Owner(d, root)
    ensures cur in h ==> (h[cur].left == null || h[cur].left in h) && (h[cur].right == null || h[cur].right in h)
    ensures var g := if cur in h then Recounted(h, root, cur) else h;
      Updating(h0, g, root, row, Owner(d, root), c, t, if d.Top? then d else d.up, if d.Top? then u else Wrap(d, u))
  {
    if row in h0 {
      CountStep(h, root, d, u);
    } else {
      StrayStep(h0, h, root, row, cur, c, t, d, u);
    }
    if cur in h {
      ApexKnown(h, root, d, u);
      ResizedStep(h0, h, root, cur);
    }
  }

  lemma UpdateEnd(h0: Memory, h: Memory, root: Row, row: Row, c: Ctx, t: Tree, d: Ctx, u: Tree)
    requires Updating(h0, h, root, row, root, c, t, d, u) && (row !in h0 ==> row != root)
    ensures root in h && (h[root].left == null || h[root].left in h) && (h[root].right == null || h[root].right in h)
    ensures var g := Recounted(h, root, root);
      && Resized(h0, g) && (row in h0 ==> Sound(g, root, Zip(c, t)))
      && (row !in h0 ==> Roaming(g, root, Top, Zip(c, t)) && SameOutside(h0, g, Spine(c) + {root}))
  {
    ApexKnown(h, root, d, u);
    if row in h0 {
      RecountedRoot(h, root, u);
    } else {
      RecountedRoaming(h, root, u);
    }
    ResizedStep(h0, h, root, root);
  }

  /** Rounds left of the walk. */
  ghost function ToGo(c: Ctx, cur: Row, root: Row): nat {
    if cur == root then 0 else 1 + Depth(c)
  }

  /** One round of the walk: recomputes the sizes of `cur` and goes to its parent. */
  method UpdateOne(
    root: Row, row: Row, cur: Row, ghost c: Ctx, ghost t: Tree, ghost d: Ctx, ghost u: Tree, ghost rep: set<Row>,
    ghost h0: Memory)
    returns (next: Row, ghost e: Ctx, ghost v: Tree)
    requires cur != root && Updating(h0, Snap(rep), root, row, cur, c, t, d, u) && h0.Keys == rep
    requires cur !in rep ==> cur.parent == Owner(d, root)
    requires cur !in rep ==> (cur.left == null || cur.left in rep) && (cur.right == null || cur.right in rep)
    modifies cur`height, cur`branchCount
    ensures cur in rep || cur == row
    ensures next == Owner(d, root) && e == (if d.Top? then d else d.up) && v == if d.Top? then u else Wrap(d, u)
    ensures Updating(h0, Snap(rep), root, row, next, c, t, e, v) && ToGo(e, next, root) < ToGo(d, cur, root)
  {
    ghost var h := Snap(rep);
    UpdateStep(h0, h, root, row, cur, c, t, d, u);
    assert cur in rep ==> CellOf(cur) == h[cur];
    Recount(root, cur, rep);
    next := cur.parent;
    e, v := if d.Top? then d else d.up, if d.Top? then u else Wrap(d, u);
  }

  /**
   Recomputes height and count of `row` and of every ancestor up to the sentinel.  If the
   row has just been cut out of the tree, the walk starts at a stranger whose parent is
   the owner of `c`: then only sizes on the path above change, to unknown values.
   */
  method UpdateCounts(root: Row, row: Row, ghost c: Ctx, ghost t: Tree, ghost rep: set<Row>)
    requires if row in rep then Walking(Snap(rep), root, row, c, t) else Roaming(Snap(rep), root, c, t)
    requires row !in rep ==> row.parent == Owner(c, root)
    requires row !in rep ==> (row.left == null || row.left in rep) && (row.right == null || row.right in rep)
    modifies rep`height, rep`branchCount, row`height, row`branchCount
    ensures Resized(old(Snap(rep)), Snap(rep))
    ensures row in rep ==> Sound(Snap(rep), root, Zip(c, t))
    ensures row !in rep ==> Roaming(Snap(rep), root, Top, Zip(c, t))
    ensures row !in rep ==> SameOutside(old(Snap(rep)), Snap(rep), Spine(c) + {root})
  {
    var cur: Row := row;
    ghost var h0, d, u := Snap(rep), c, t;
    while cur != root
      invariant Updating(h0, Snap(rep), root, row, cur, c, t, d, u)
      decreases ToGo(d, cur, root)
    {
      cur, d, u := UpdateOne(root, row, cur, c, t, d, u, rep, h0);
    }
    ghost var h := Snap(rep);
    UpdateEnd(h0, h, root, row, c, t, d, u);
    assert CellOf(root) == h[root];
    Recount(root, root, rep);
  }
}
