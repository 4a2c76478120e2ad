/**
 The heap of rows as a value, and its relation to the ghost trees of `RowTree`.

 `Snap` turns the mutable fields of a set of rows into a map.  Every method that writes
 rows says what map it leaves behind; that the map still describes a linked, exactly
 counted tree is then a statement about values.
 */
module Memory {
  import opened RowTree

  /** The mutable part of a row. */
  datatype Cell = Cell(parent: Row?, left: Row?, right: Row?, fLeft: bool, hidden: bool, height: int, count: int)

  type Memory = map<Row, Cell>

  ghost function CellOf(r: Row): Cell
    reads r
  {
    Cell(r.parent, r.left, r.right, r.fLeft, r.hidden, r.height, r.branchCount)
  }

  ghost function Snap(rep: set<Row>): Memory
    reads rep
  {
    map r | r in rep :: CellOf(r)
  }

  ghost function Get(h: Memory, r: Row?): Cell {
    if r in h then h[r] else Cell(null, null, null, false, false, 0, 0)
  }

  // ---------- pointers ----------

  ghost predicate Linked(h: Memory, t: Tree, parent: Row, side: bool) {
    match t
    case Nil => true
    case Node(l, r, rt) =>
      r in h && h[r].parent == parent && h[r].fLeft == side && h[r].left == Apex(l) && h[r].right == Apex(rt) &&
      Linked(h, l, r, true) && Linked(h, rt, r, false)
  }

  /** The row that owns the hole, the sentinel when the hole is the whole tree. */
  ghost function Owner(c: Ctx, root: Row): Row {
    if c.Top? then root else c.row
  }

  ghost predicate CtxLinked(h: Memory, c: Ctx, root: Row, hole: Row?) {
    match c
    case Top => root in h && h[root].right == hole
    case InLeft(r, rt, up) =>
      r in h && h[r].parent == Owner(up, root) && h[r].fLeft == up.InLeft? && h[r].left == hole &&
      h[r].right == Apex(rt) && Linked(h, rt, r, false) && CtxLinked(h, up, root, r)
    case InRight(l, r, up) =>
      r in h && h[r].parent == Owner(up, root) && h[r].fLeft == up.InLeft? && h[r].right == hole &&
      h[r].left == Apex(l) && Linked(h, l, r, true) && CtxLinked(h, up, root, r)
  }

  /** The subtree `t` sits in `c`, under the sentinel `root`. */
  ghost predicate Placed(h: Memory, c: Ctx, t: Tree, root: Row) {
    Linked(h, t, Owner(c, root), c.InLeft?) && CtxLinked(h, c, root, Apex(t))
  }

  /** All rows differ from each other and from the sentinel. */
  ghost predicate Apart(c: Ctx, t: Tree, root: Row) {
    Distinct(t) && CtxDistinct(c) && Rows(t) !! CtxRows(c) && root !in Rows(t) && root !in CtxRows(c)
  }

  lemma {:induction false} PlacedZip(h: Memory, c: Ctx, t: Tree, root: Row)
    ensures Placed(h, c, t, root) <==> Placed(h, Top, Zip(c, t), root)
    decreases c
  {
    match c
    case Top =>
    case InLeft(r, rt, up) => PlacedZip(h, up, Node(t, r, rt), root);
    case InRight(l, r, up) => PlacedZip(h, up, Node(l, r, t), root);
  }

  lemma ApartZip(c: Ctx, t: Tree, root: Row)
    ensures Apart(c, t, root) <==> Apart(Top, Zip(c, t), root)
  {
    ZipDistinct(c, t);
    ZipRows(c, t);
  }

  ghost predicate SamePointers(h: Memory, g: Memory, rows: set<Row>) {
    forall r :: r in rows && r in h ==>
      r in g && h[r].parent == g[r].parent && h[r].left == g[r].left && h[r].right == g[r].right &&
        h[r].fLeft == g[r].fLeft
  }

  lemma {:induction false} LinkedKept(h: Memory, g: Memory, t: Tree, parent: Row, side: bool)
    requires Linked(h, t, parent, side) && SamePointers(h, g, Rows(t))
    ensures Linked(g, t, parent, side)
    decreases t
  {
    if t.Node? {
      LinkedKept(h, g, t.left, t.row, true);
      LinkedKept(h, g, t.right, t.row, false);
    }
  }

  lemma {:induction false} CtxLinkedKept(h: Memory, g: Memory, c: Ctx, root: Row, hole: Row?)
    requires CtxLinked(h, c, root, hole) && SamePointers(h, g, CtxRows(c))
    requires root in g && g[root].right == Get(h, root).right
    ensures CtxLinked(g, c, root, hole)
    decreases c
  {
    match c
    case Top =>
    case InLeft(r, rt, up) =>
      LinkedKept(h, g, rt, r, false);
      CtxLinkedKept(h, g, up, root, r);
    case InRight(l, r, up) =>
      LinkedKept(h, g, l, r, true);
      CtxLinkedKept(h, g, up, root, r);
  }

  // ---------- heights and counts ----------

  ghost function Max(a: int, b: int): int { if a < b then b else a }

  ghost function Height(t: Tree): nat {
    match t
    case Nil => 0
    case Node(l, _, rt) => 1 + Max(Height(l), Height(rt))
  }

  ghost function Weight(h: Memory, r: Row): nat {
    if Get(h, r).hidden then 0 else 1
  }

  ghost function Count(h: Memory, t: Tree): nat {
    match t
    case Nil => 0
    case Node(l, r, rt) => Weight(h, r) + Count(h, l) + Count(h, rt)
  }

  ghost predicate Exact(h: Memory, t: Tree) {
    match t
    case Nil => true
    case Node(l, r, rt) =>
      Get(h, r).height == Height(t) && Get(h, r).count == Count(h, t) && Exact(h, l) && Exact(h, rt)
  }

  /** The trees hanging off the path above the hole are exact. */
  ghost predicate SidesExact(h: Memory, c: Ctx) {
    match c
    case Top => true
    case InLeft(r, rt, up) => Exact(h, rt) && SidesExact(h, up)
    case InRight(l, r, up) => Exact(h, l) && SidesExact(h, up)
  }

  lemma {:induction false} ExactUnzip(h: Memory, c: Ctx, t: Tree)
    requires Exact(h, Zip(c, t))
    ensures Exact(h, t) && SidesExact(h, c)
    decreases c
  {
    match c
    case Top =>
    case InLeft(r, rt, up) => ExactUnzip(h, up, Node(t, r, rt));
    case InRight(l, r, up) => ExactUnzip(h, up, Node(l, r, t));
  }

  ghost predicate SameSizes(h: Memory, g: Memory, rows: set<Row>) {
    forall r :: r in rows ==>
      Get(h, r).hidden == Get(g, r).hidden && Get(h, r).height == Get(g, r).height && Get(h, r).count == Get(g, r).count
  }

  lemma {:induction false} ExactKept(h: Memory, g: Memory, t: Tree)
    requires Exact(h, t) && SameSizes(h, g, Rows(t))
    ensures Exact(g, t) && Count(g, t) == Count(h, t)
  {
    if t.Node? {
      ExactKept(h, g, t.left);
      ExactKept(h, g, t.right);
    }
  }

  lemma {:induction false} SidesExactKept(h: Memory, g: Memory, c: Ctx)
    requires SidesExact(h, c) && SameSizes(h, g, CtxRows(c))
    ensures SidesExact(g, c)
  {
    match c
    case Top =>
    case InLeft(r, rt, up) =>
      ExactKept(h, g, rt);
      SidesExactKept(h, g, up);
    case InRight(l, r, up) =>
      ExactKept(h, g, l);
      SidesExactKept(h, g, up);
  }

  // ---------- the whole table ----------

  /** The sentinel: it has no left child, no parent, and is nobody's left child. */
  ghost predicate Sentinel(h: Memory, root: Row) {
    root in h && h[root].left == null && h[root].parent == null && !h[root].fLeft
  }

  ghost function Everyone(root: Row, c: Ctx, t: Tree): set<Row> {
    {root} + CtxRows(c) + Rows(t)
  }

  /**
   Memory `h` is exactly the sentinel and the rows of tree `t`: every link agrees with
   `t`, every height and visible-row count is right, and the sentinel counts the table.
   */
  ghost predicate Sound(h: Memory, root: Row, t: Tree) {
    && Apart(Top, t, root) && h.Keys == Everyone(root, Top, t)
    && Sentinel(h, root) && Placed(h, Top, t, root)
    && Exact(h, t) && h[root].count == Count(h, t)
  }

  ghost predicate SameHidden(h: Memory, g: Memory) {
    h.Keys == g.Keys && forall r :: r in h ==> g[r].hidden == h[r].hidden
  }

  /** Every row of `h` is as visible in `g`. */
  ghost predicate HiddenKept(h: Memory, g: Memory) {
    forall r :: r in h ==> r in g && g[r].hidden == h[r].hidden
  }
}
