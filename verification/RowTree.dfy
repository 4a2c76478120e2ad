/**
 The shape of the row tree, as values.

 A `Tree` is the ghost picture of the nodes reachable from one `Row`; a `Ctx` is the
 picture of everything around such a subtree, innermost parent first.  Loops that walk
 up parent pointers peel one frame of a `Ctx` at a time.
 */
module RowTree {
  import opened RowOrder

  datatype Key = Key(objId: nat, orderId: nat)

  /** One table row and its tree links. */
  class Row {
    const key: Key
    const cols: seq<Column>
    const isRoot: bool
    var hidden: bool
    var parent: Row?
    var left: Row?
    var right: Row?
    var fLeft: bool
    var branchCount: int
    var height: int

    constructor (key: Key, cols: seq<Column>, isRoot: bool, hidden: bool)
      ensures this.key == key && this.cols == cols && this.isRoot == isRoot && this.hidden == hidden
      ensures parent == null && left == null && right == null && !fLeft
      ensures branchCount == 0 && height == 0
    {
      this.key := key;
      this.cols := cols;
      this.isRoot := isRoot;
      this.hidden := hidden;
      parent, left, right, fLeft := null, null, null, false;
      branchCount, height := 0, 0;
    }
  }

  datatype Tree = Nil | Node(left: Tree, row: Row, right: Tree)

  datatype Ctx =
    | Top
    | InLeft(row: Row, right: Tree, up: Ctx)
    | InRight(left: Tree, row: Row, up: Ctx)

  ghost function Apex(t: Tree): Row? {
    if t.Nil? then null else t.row
  }

  ghost function Rows(t: Tree): set<Row> {
    match t
    case Nil => {}
    case Node(l, r, rt) => Rows(l) + {r} + Rows(rt)
  }

  ghost function InOrder(t: Tree): seq<Row> {
    match t
    case Nil => []
    case Node(l, r, rt) => InOrder(l) + [r] + InOrder(rt)
  }

  /** No row occurs twice. */
  ghost predicate Distinct(t: Tree) {
    match t
    case Nil => true
    case Node(l, r, rt) =>
      Distinct(l) && Distinct(rt) && r !in Rows(l) && r !in Rows(rt) && Rows(l) !! Rows(rt)
  }

  // ---------- contexts ----------

  ghost function CtxRows(c: Ctx): set<Row> {
    match c
    case Top => {}
    case InLeft(r, rt, up) => {r} + Rows(rt) + CtxRows(up)
    case InRight(l, r, up) => {r} + Rows(l) + CtxRows(up)
  }

  ghost predicate CtxDistinct(c: Ctx) {
    match c
    case Top => true
    case InLeft(r, rt, up) =>
      Distinct(rt) && CtxDistinct(up) && r !in Rows(rt) && r !in CtxRows(up) && Rows(rt) !! CtxRows(up)
    case InRight(l, r, up) =>
      Distinct(l) && CtxDistinct(up) && r !in Rows(l) && r !in CtxRows(up) && Rows(l) !! CtxRows(up)
  }

  /** The tree obtained by putting `t` into the hole of `c`. */
  ghost function Zip(c: Ctx, t: Tree): Tree
    decreases c
  {
    match c
    case Top => t
    case InLeft(r, rt, up) => Zip(up, Node(t, r, rt))
    case InRight(l, r, up) => Zip(up, Node(l, r, t))
  }

  ghost function Depth(c: Ctx): nat {
    match c
    case Top => 0
    case InLeft(_, _, up) => 1 + Depth(up)
    case InRight(_, _, up) => 1 + Depth(up)
  }

  /** Rows before and after the hole. */
  ghost function Before(c: Ctx): seq<Row> {
    match c
    case Top => []
    case InLeft(_, _, up) => Before(up)
    case InRight(l, r, up) => Before(up) + InOrder(l) + [r]
  }

  ghost function After(c: Ctx): seq<Row> {
    match c
    case Top => []
    case InLeft(r, rt, up) => [r] + InOrder(rt) + After(up)
    case InRight(_, _, up) => After(up)
  }

  /** `c` inside `outer`. */
  ghost function Compose(c: Ctx, outer: Ctx): Ctx {
    match c
    case Top => outer
    case InLeft(r, rt, up) => InLeft(r, rt, Compose(up, outer))
    case InRight(l, r, up) => InRight(l, r, Compose(up, outer))
  }

  lemma {:induction false} ZipCompose(c: Ctx, outer: Ctx, t: Tree)
    ensures Zip(Compose(c, outer), t) == Zip(outer, Zip(c, t))
    decreases c
  {
    match c
    case Top =>
    case InLeft(r, rt, up) => ZipCompose(up, outer, Node(t, r, rt));
    case InRight(l, r, up) => ZipCompose(up, outer, Node(l, r, t));
  }

  lemma {:induction false} ZipInOrder(c: Ctx, t: Tree)
    ensures InOrder(Zip(c, t)) == Before(c) + InOrder(t) + After(c)
    decreases c
  {
    match c
    case Top =>
    case InLeft(r, rt, up) => ZipInOrder(up, Node(t, r, rt));
    case InRight(l, r, up) => ZipInOrder(up, Node(l, r, t));
  }

  lemma {:induction false} ZipRows(c: Ctx, t: Tree)
    ensures Rows(Zip(c, t)) == CtxRows(c) + Rows(t)
    decreases c
  {
    match c
    case Top =>
    case InLeft(r, rt, up) => ZipRows(up, Node(t, r, rt));
    case InRight(l, r, up) => ZipRows(up, Node(l, r, t));
  }

  lemma {:induction false} ZipDistinct(c: Ctx, t: Tree)
    ensures Distinct(Zip(c, t)) <==> Distinct(t) && CtxDistinct(c) && Rows(t) !! CtxRows(c)
    decreases c
  {
    match c
    case Top =>
    case InLeft(r, rt, up) => ZipDistinct(up, Node(t, r, rt));
    case InRight(l, r, up) => ZipDistinct(up, Node(l, r, t));
  }

  lemma {:induction false} InOrderRows(t: Tree)
    ensures Rows(t) == set r | r in InOrder(t)
  {
    if t.Node? {
      InOrderRows(t.left);
      InOrderRows(t.right);
    }
  }

  ghost predicate NoDup<T>(s: seq<T>) {
    forall i, j :: 0 <= i < j < |s| ==> s[i] != s[j]
  }

  lemma {:induction false} DistinctNoDup(t: Tree)
    requires Distinct(t)
    ensures NoDup(InOrder(t))
  {
    if t.Node? {
      DistinctNoDup(t.left);
      DistinctNoDup(t.right);
      InOrderRows(t.left);
      InOrderRows(t.right);
      NoDupAround(InOrder(t.left), t.row, InOrder(t.right));
    }
  }

  lemma NoDupAround<T>(a: seq<T>, x: T, b: seq<T>)
    requires NoDup(a) && NoDup(b) && x !in a && x !in b
    requires (set y | y in a) !! (set y | y in b)
    ensures NoDup(a + [x] + b)
  {
    var s, p, q := a + [x] + b, set y | y in a, set y | y in b;
    forall i, j | 0 <= i < j < |s|
      ensures s[i] != s[j]
    {
      if i < |a| {
        assert s[i] == a[i] && s[i] in a && s[i] in p;
        assert j < |a| ==> s[j] == a[j];
        assert j > |a| ==> s[j] == b[j - |a| - 1] && s[j] in b && s[j] in q;
      } else {
        assert i > |a| ==> s[i] == b[i - |a| - 1];
        assert s[j] == b[j - |a| - 1] && s[j] in b;
      }
    }
  }

  /** The context and subtree of one row. */
  ghost function Locate(c: Ctx, t: Tree, r: Row): (z: (Ctx, Tree))
    requires r in Rows(t)
    ensures z.1.Node? && z.1.row == r
    ensures Zip(z.0, z.1) == Zip(c, t)
    decreases t
  {
    if t.row == r then (c, t)
    else if r in Rows(t.left) then Locate(InLeft(t.row, t.right, c), t.left, r)
    else Locate(InRight(t.left, t.row, c), t.right, r)
  }
}
