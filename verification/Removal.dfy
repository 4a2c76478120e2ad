/** Cutting a row out of a sound tree: directly, or by putting its predecessor in its place. */
module Removal {
  import opened RowTree
  import opened Memory
  import opened Counting
  import opened Avl
  import opened Rotations
  import opened Rebalancing
  import opened Navigation

  lemma {:induction false} NoDupDistinct(t: Tree)
    requires NoDup(InOrder(t))
    ensures Distinct(t)
  {
    if t.Node? {
      var a, b, s := InOrder(t.left), InOrder(t.right), InOrder(t);
      assert forall i :: 0 <= i < |a| ==> s[i] == a[i];
      assert forall i :: 0 <= i < |b| ==> s[i + |a| + 1] == b[i];
      assert s[|a|] == t.row;
      assert NoDup(a) && NoDup(b);
      NoDupDistinct(t.left);
      NoDupDistinct(t.right);
      InOrderRows(t.left);
      InOrderRows(t.right);
      forall r | r in Rows(t.left) ensures r !in Rows(t.right) && r != t.row {
        assert r in (set x | x in a);
        var i :| 0 <= i < |a| && a[i] == r;
      }
    }
  }

  /** A tree that lists the rows of another one without one of them. */
  lemma WithoutRow(t: Tree, u: Tree, root: Row, n: nat)
    requires Apart(Top, t, root) && n < |InOrder(t)| && InOrder(u) == InOrder(t)[..n] + InOrder(t)[n + 1..]
    ensures Apart(Top, u, root) && Rows(u) == Rows(t) - {InOrder(t)[n]}
  {
    DistinctNoDup(t);
    LessOne(InOrder(t), n);
    NoDupDistinct(u);
    InOrderRows(t);
    InOrderRows(u);
  }

  lemma LessOne<T>(s: seq<T>, n: nat)
    requires NoDup(s) && n < |s|
    ensures NoDup(s[..n] + s[n + 1..])
    ensures var v := s[..n] + s[n + 1..]; (set x | x in v) == (set x | x in s) - {s[n]}
  {
    var v := s[..n] + s[n + 1..];
    assert forall i :: 0 <= i < |v| ==> v[i] == s[if i < n then i else i + 1];
    forall x | x in s && x != s[n] ensures x in v {
      var i :| 0 <= i < |s| && s[i] == x;
      assert x == v[if i < n then i else i - 1];
    }
  }

  // ---------- splicing ----------

  /** One slot of `p` gets the child `sub`, which is told so. */
  ghost predicate Spliced(h: Memory, g: Memory, p: Row, side: bool, sub: Row?) {
    && p in h && sub != p && SameElsewhere(h, g, {p, sub})
    && g[p] == (if side then h[p].(left := sub) else h[p].(right := sub))
    && (sub in h ==> g[sub] == h[sub].(parent := p, fLeft := side))
  }

  method Splice(owner: Row, side: bool, child: Row?, ghost rep: set<Row>)
    requires owner in rep && child != owner && (child == null || child in rep)
    modifies owner`left, owner`right
    modifies (if child == null then {} else {child})`parent, (if child == null then {} else {child})`fLeft
    ensures Spliced(old(Snap(rep)), Snap(rep), owner, side, child)
  {
    SetChild(owner, side, child, rep);
    Adopt(child, owner, side, rep);
  }

  /** Splicing a child of `t` into the hole of `c` cuts the root of `t` out. */
  lemma SplicedPlaced(h: Memory, g: Memory, root: Row, c: Ctx, t: Tree, sub: Tree)
    requires t.Node? && (sub == t.left || sub == t.right) && Apart(c, t, root) && Placed(h, c, t, root)
    requires Spliced(h, g, Owner(c, root), c.InLeft?, Apex(sub))
    ensures Placed(g, c, sub, root)
  {
    Refilled(h, g, c, root, t.row, Apex(sub), {Apex(sub)});
    if sub == t.left {
      Rehung(h, g, sub, t.row, true, Owner(c, root), c.InLeft?, {Owner(c, root)});
    } else {
      Rehung(h, g, sub, t.row, false, Owner(c, root), c.InLeft?, {Owner(c, root)});
    }
  }

  /** A memory without one row. */
  ghost function Without(h: Memory, row: Row): Memory {
    map r | r in h && r != row :: h[r]
  }

  lemma WithoutPlaced(h: Memory, root: Row, c: Ctx, t: Tree, row: Row)
    requires Placed(h, c, t, root) && row !in Rows(t) && row !in CtxRows(c) && row != root
    ensures Placed(Without(h, row), c, t, root)
  {
    RootKnown(h, c, root, Apex(t));
    LinkedKept(h, Without(h, row), t, Owner(c, root), c.InLeft?);
    CtxLinkedKept(h, Without(h, row), c, root, Apex(t));
  }

  // ---------- a row with at most one child ----------

  ghost function UpCtx(c: Ctx): Ctx {
    if c.Top? then c else c.up
  }

  ghost function UpTree(c: Ctx, t: Tree): Tree {
    if c.Top? then t else Wrap(c, t)
  }

  /** The only child tree of `t`. */
  ghost function Remainder(t: Tree): Tree
    requires t.Node?
  {
    if t.left.Node? then t.left else t.right
  }

  lemma RemainderInOrder(c: Ctx, t: Tree)
    requires t.Node? && (t.left.Nil? || t.right.Nil?)
    ensures var s, n := InOrder(Zip(c, t)), Pos(c, t);
      n < |s| && s[n] == t.row && InOrder(Zip(c, Remainder(t))) == s[..n] + s[n + 1..]
  {
    ZipInOrder(c, t);
    ZipInOrder(c, Remainder(t));
    PosAt(c, t);
    var s, n := InOrder(Zip(c, t)), Pos(c, t);
    assert s[..n] == Before(c) + InOrder(t.left) && s[n + 1..] == InOrder(t.right) + After(c);
  }

  lemma SplicedSizes(h: Memory, g: Memory, p: Row, side: bool, sub: Row?, row: Row)
    requires Spliced(h, g, p, side, sub)
    ensures SameSizes(h, Without(g, row), h.Keys - {row})
  {
  }

  /** With an exact subtree in the hole, the counting walk can start at the owner of the hole. */
  lemma WalkFromOwner(h: Memory, root: Row, c: Ctx, t: Tree)
    requires Roaming(h, root, c, t) && SidesExact(h, c) && Exact(h, t)
    ensures Walking(h, root, Owner(c, root), UpCtx(c), UpTree(c, t))
  {
    if !c.Top? {
      Counting.Climb(h, root, c, t);
    }
  }

  lemma RemainderApart(c: Ctx, t: Tree, root: Row)
    requires t.Node? && (t.left.Nil? || t.right.Nil?) && Apart(c, t, root)
    ensures Apart(c, Remainder(t), root) && t.row !in Rows(Remainder(t)) && t.row !in CtxRows(c) && t.row != root
    ensures Everyone(root, c, Remainder(t)) == Everyone(root, c, t) - {t.row}
  {
    assert Rows(t) == Rows(Remainder(t)) + {t.row};
  }

  lemma ShallowRoaming(h: Memory, g: Memory, root: Row, c: Ctx, t: Tree)
    requires t.Node? && (t.left.Nil? || t.right.Nil?) && Sound(h, root, Zip(c, t))
    requires Spliced(h, g, Owner(c, root), c.InLeft?, Apex(Remainder(t)))
    ensures Roaming(Without(g, t.row), root, c, Remainder(t))
  {
    Settled(h, root, c, t);
    RemainderApart(c, t, root);
    SplicedPlaced(h, g, root, c, t, Remainder(t));
    WithoutPlaced(g, root, c, Remainder(t), t.row);
  }

  /** After the splice the counting walk can start at the parent of the lost row. */
  lemma ShallowWalking(h: Memory, g: Memory, root: Row, c: Ctx, t: Tree)
    requires t.Node? && (t.left.Nil? || t.right.Nil?) && Sound(h, root, Zip(c, t))
    requires Spliced(h, g, Owner(c, root), c.InLeft?, Apex(Remainder(t)))
    ensures Walking(Without(g, t.row), root, Owner(c, root), UpCtx(c), UpTree(c, Remainder(t)))
  {
    var k := Without(g, t.row);
    ShallowRoaming(h, g, root, c, t);
    Settled(h, root, c, t);
    SplicedSizes(h, g, Owner(c, root), c.InLeft?, Apex(Remainder(t)), t.row);
    ExactKept(h, k, Remainder(t));
    SidesExactKept(h, k, c);
    WalkFromOwner(k, root, c, Remainder(t));
  }

  /** A height lost below the hole of `c` is repaired by the walk that starts above it. */
  lemma LossRepairs(c: Ctx, t: Tree, sub: Tree)
    requires Balanced(Zip(c, t)) && Balanced(sub) && Near(Height(sub), Height(t))
    ensures if c.Top? then Balanced(Zip(c, sub)) else Repairing(c.up, Wrap(c, sub), Raised(c, Height(t)), true)
  {
    BalancedUnzip(c, t);
    if !c.Top? {
      MendedAbove(c, sub, Height(t));
    }
  }

  lemma ShallowRepairs(c: Ctx, t: Tree)
    requires Balanced(Zip(c, t)) && t.Node? && (t.left.Nil? || t.right.Nil?)
    ensures if c.Top? then Balanced(Zip(c, Remainder(t)))
            else Repairing(c.up, Wrap(c, Remainder(t)), Raised(c, Height(t)), true)
  {
    BalancedUnzip(c, t);
    LossRepairs(c, t, Remainder(t));
  }

  lemma Neighbours(h: Memory, root: Row, c: Ctx, t: Tree)
    requires t.Node? && Sound(h, root, Zip(c, t))
    ensures t.row in h && t.row != root && Owner(c, root) in h && Owner(c, root) !in Rows(t) && Rows(t) <= h.Keys
    ensures t.row !in Rows(t.left) && t.row !in Rows(t.right)
    ensures h[t.row].left == Apex(t.left) && h[t.row].right == Apex(t.right)
    ensures h[t.row].parent == Owner(c, root) && h[t.row].fLeft == c.InLeft?
  {
    Settled(h, root, c, t);
  }

  lemma SnapWithout(rep: set<Row>, row: Row)
    ensures Snap(rep - {row}) == Without(Snap(rep), row)
  {
  }

  /** The pointer part of a removal. */
  method CutShallow(root: Row, row: Row, ghost c: Ctx, ghost t: Tree, ghost rep: set<Row>)
    requires Sound(Snap(rep), root, Zip(c, t))
    requires t.Node? && t.row == row && (t.left.Nil? || t.right.Nil?)
    modifies (rep - {row})`parent, (rep - {row})`fLeft, (rep - {row})`left, (rep - {row})`right
    ensures Walking(Snap(rep - {row}), root, Owner(c, root), UpCtx(c), UpTree(c, Remainder(t)))
    ensures row.parent == Owner(c, root)
  {
    ghost var h := Snap(rep);
    Neighbours(h, root, c, t);
    assert CellOf(row) == h[row];
    var child := if row.left != null then row.left else row.right;
    Splice(row.parent, row.fLeft, child, rep);
    ShallowWalking(h, Snap(rep), root, c, t);
    SnapWithout(rep, row);
  }

  /** Removal of a row with at most one child. */
  method RemoveShallow(root: Row, row: Row, ghost c: Ctx, ghost t: Tree, ghost rep: set<Row>, ghost less: set<Row>)
    returns (ghost result: Tree)
    requires Sound(Snap(rep), root, Zip(c, t)) && Balanced(Zip(c, t))
    requires t.Node? && t.row == row && (t.left.Nil? || t.right.Nil?) && less == rep - {row}
    modifies less`parent, less`fLeft, less`left, less`right, less`height, less`branchCount
    ensures Sound(Snap(less), root, result) && Balanced(result)
    ensures InOrder(result) == InOrder(Zip(c, Remainder(t)))
  {
    ghost var sub := Remainder(t);
    CutShallow(root, row, c, t, rep);
    var parent := row.parent;
    UpdateCounts(root, parent, UpCtx(c), UpTree(c, sub), less);
    ShallowRepairs(c, t);
    result := RestructureRecursive(root, parent, UpCtx(c), UpTree(c, sub),
                                   if c.Top? then 0 else Raised(c, Height(t)), true, less);
  }

  // ---------- a row with two children ----------

  /** The path inside a tree down to its last row. */
  ghost predicate ToLast(s: Ctx, t: Tree, pl: Tree, pred: Row) {
    t == Zip(s, Node(pl, pred, Nil)) && After(s) == []
  }

  /** The search loop for the predecessor: the last row of the left subtree. */
  method FindPredecessor(root: Row, row: Row, ghost c: Ctx, ghost t: Tree, ghost rep: set<Row>)
    returns (pred: Row, ghost s: Ctx, ghost pl: Tree)
    requires Sound(Snap(rep), root, Zip(c, t)) && t.Node? && t.row == row && t.left.Node?
    ensures ToLast(s, t.left, pl, pred)
  {
    ghost var h := Snap(rep);
    ghost var d, u := InLeft(t.row, t.right, c), t.left;
    Local(h, root, c, t);
    assert CellOf(row) == h[row];
    pred := row.left;
    s := Top;
    Local(h, root, d, u);
    assert CellOf(pred) == h[pred];
    while pred.right != null
      invariant Zip(d, u) == Zip(c, t) && Zip(s, u) == t.left && After(s) == [] && u.Node? && u.row == pred
      invariant pred in h && CellOf(pred) == h[pred] && h[pred].right == Apex(u.right)
      decreases u
    {
      pred := pred.right;
      d, s, u := InRight(u.left, u.row, d), InRight(u.left, u.row, s), u.right;
      Local(h, root, d, u);
      assert CellOf(pred) == h[pred];
    }
    pl := u.left;
  }

  /** The whole context of the predecessor of the row `x` at the root of a subtree in `c`. */
  ghost function Below(s: Ctx, x: Row, right: Tree, c: Ctx): Ctx {
    Compose(s, InLeft(x, right, c))
  }

  lemma BelowZip(s: Ctx, x: Row, right: Tree, c: Ctx, u: Tree)
    ensures Zip(Below(s, x, right, c), u) == Zip(c, Node(Zip(s, u), x, right))
  {
    ZipCompose(s, InLeft(x, right, c), u);
  }

  /** Which row sits between the subtrees does not matter for sizes. */
  lemma {:induction false} Relabel(h: Memory, s: Ctx, x: Row, y: Row, right: Tree, c: Ctx)
    ensures SidesExact(h, Below(s, x, right, c)) <==> SidesExact(h, Below(s, y, right, c))
    ensures SidesExact(h, Below(s, x, right, c)) ==> SidesExact(h, c) && Exact(h, right)
    decreases s
  {
    match s
    case Top =>
    case InLeft(r, rt, up) => Relabel(h, up, x, y, right, c);
    case InRight(l, r, up) => Relabel(h, up, x, y, right, c);
  }

  /** Nor does it for the balance. */
  lemma {:induction false} RelabelBalanced(s: Ctx, x: Row, y: Row, right: Tree, c: Ctx, k: nat)
    ensures CtxBalanced(Below(s, x, right, c), k) <==> CtxBalanced(Below(s, y, right, c), k)
    decreases s
  {
    match s
    case Top =>
    case InLeft(r, rt, up) => RelabelBalanced(up, x, y, right, c, 1 + Max(k, Height(rt)));
    case InRight(l, r, up) => RelabelBalanced(up, x, y, right, c, 1 + Max(k, Height(l)));
  }

  /** Memory in which `pred` has taken over all the links of `row`. */
  ghost predicate Replaced(h: Memory, g: Memory, row: Row, pred: Row) {
    && row in h && pred in h && h[row].parent in h
    && var p, l, r := h[row].parent, h[row].left, h[row].right;
    && SameElsewhere(h, g, {p, pred, l, r})
    && g[p] == (if h[row].fLeft then h[p].(left := pred) else h[p].(right := pred))
    && g[pred] == h[pred].(parent := p, fLeft := h[row].fLeft, left := l, right := r)
    && (l in h ==> g[l] == h[l].(parent := pred))
    && (r in h ==> g[r] == h[r].(parent := pred))
  }

  lemma ReplacedPlaced(h: Memory, g: Memory, root: Row, c: Ctx, t: Tree, pred: Row)
    requires t.Node? && Apart(c, t, root) && Placed(h, c, t, root) && Replaced(h, g, t.row, pred)
    requires pred != root && pred !in CtxRows(c) && pred !in Rows(t)
    ensures Placed(g, c, Node(t.left, pred, t.right), root)
  {
    var p, row := Owner(c, root), t.row;
    Refilled(h, g, c, root, row, pred, {pred, Apex(t.left), Apex(t.right)});
    Rehung(h, g, t.left, row, true, pred, true, {p, pred, Apex(t.right)});
    Rehung(h, g, t.right, row, false, pred, false, {p, pred, Apex(t.left)});
  }

  /** The subtree that remains: `pred` in place of the row, and its left subtree in place of `pred`. */
  ghost function Patched(t: Tree, s: Ctx, pl: Tree, pred: Row): Tree
    requires t.Node?
  {
    Node(Zip(s, pl), pred, t.right)
  }

  lemma DeepOrder(c: Ctx, t: Tree, s: Ctx, pl: Tree, pred: Row)
    requires t.Node? && ToLast(s, t.left, pl, pred)
    ensures var x, z := Before(c) + (Before(s) + InOrder(pl)), InOrder(t.right) + After(c);
      && InOrder(Zip(c, t)) == x + [pred, t.row] + z && Pos(c, t) == |x| + 1
      && InOrder(Zip(c, Patched(t, s, pl, pred))) == x + [pred] + z
      && InOrder(Zip(c, Node(Zip(s, pl), t.row, t.right))) == x + [t.row] + z
  {
    var y, r := Before(s) + InOrder(pl), InOrder(t.right);
    LeftInOrder(s, pl, pred);
    assert InOrder(t) == (y + [pred]) + [t.row] + r;
    ZipInOrder(c, t);
    ZipInOrder(c, Patched(t, s, pl, pred));
    ZipInOrder(c, Node(Zip(s, pl), t.row, t.right));
    PatchedInOrder(c, y, pred, t.row, r);
    PatchedInOrder(c, y, t.row, t.row, r);
  }

  /** The order with `pred` and its successor, the row to be removed, and without either. */
  lemma DeepInOrder(c: Ctx, t: Tree, s: Ctx, pl: Tree, pred: Row, a: seq<Row>, n: nat)
    requires t.Node? && ToLast(s, t.left, pl, pred) && a == InOrder(Zip(c, t)) && n == Pos(c, t)
    ensures 0 < n < |a| && a[n - 1] == pred && a[n] == t.row
    ensures InOrder(Zip(c, Patched(t, s, pl, pred))) == a[..n] + a[n + 1..]
    ensures InOrder(Zip(c, Node(Zip(s, pl), t.row, t.right))) == a[..n - 1] + a[n..]
  {
    DeepOrder(c, t, s, pl, pred);
    TwoCuts(Before(c) + (Before(s) + InOrder(pl)), pred, t.row, InOrder(t.right) + After(c));
  }

  lemma LeftInOrder(s: Ctx, pl: Tree, pred: Row)
    requires After(s) == []
    ensures InOrder(Zip(s, Node(pl, pred, Nil))) == (Before(s) + InOrder(pl)) + [pred]
    ensures InOrder(Zip(s, pl)) == Before(s) + InOrder(pl)
  {
    ZipInOrder(s, Node(pl, pred, Nil));
    ZipInOrder(s, pl);
    assert InOrder(Node(pl, pred, Nil)) == InOrder(pl) + [pred];
  }

  lemma PatchedInOrder(c: Ctx, y: seq<Row>, pred: Row, row: Row, r: seq<Row>)
    ensures Before(c) + (y + [pred] + r) + After(c) == Before(c) + y + [pred] + (r + After(c))
    ensures Before(c) + ((y + [pred]) + [row] + r) + After(c) == Before(c) + y + [pred, row] + (r + After(c))
  {
  }

  lemma TwoCuts(x: seq<Row>, pred: Row, row: Row, z: seq<Row>)
    ensures var a, n := x + [pred, row] + z, |x| + 1;
      && a[n - 1] == pred && a[n] == row
      && a[..n] + a[n + 1..] == x + [pred] + z && a[..n - 1] + a[n..] == x + [row] + z
  {
  }

  lemma RowAtKnown(t: Tree, n: nat)
    requires n < |InOrder(t)|
    ensures InOrder(t)[n] in Rows(t)
  {
    InOrderRows(t);
    assert InOrder(t)[n] in (set r | r in InOrder(t));
  }

  /** Rows of a tree and its surroundings that together list all rows of another tree but one. */
  lemma CutApart(root: Row, w: Tree, c: Ctx, u: Tree, n: nat)
    requires Apart(Top, w, root) && n < |InOrder(w)|
    requires InOrder(Zip(c, u)) == InOrder(w)[..n] + InOrder(w)[n + 1..]
    ensures Apart(c, u, root) && Everyone(root, c, u) == Everyone(root, Top, w) - {InOrder(w)[n]}
    ensures var r := InOrder(w)[n]; r != root && r !in CtxRows(c) && r !in Rows(u)
  {
    RowAtKnown(w, n);
    WithoutRow(w, Zip(c, u), root, n);
    ApartZip(c, u, root);
    ZipRows(c, u);
  }

  /** Rows of the two intermediate trees. */
  lemma DeepApart(root: Row, c: Ctx, t: Tree, s: Ctx, pl: Tree, pred: Row)
    requires t.Node? && ToLast(s, t.left, pl, pred) && Apart(Top, Zip(c, t), root)
    ensures Apart(c, Node(Zip(s, pl), t.row, t.right), root) && Apart(c, Patched(t, s, pl, pred), root)
    ensures pred != root && pred !in CtxRows(c) && pred !in Rows(Node(Zip(s, pl), t.row, t.right))
    ensures Everyone(root, c, Patched(t, s, pl, pred)) == Everyone(root, Top, Zip(c, t)) - {t.row}
    ensures t.row !in CtxRows(c) && t.row !in Rows(Patched(t, s, pl, pred)) && t.row != root
  {
    var w, n := Zip(c, t), Pos(c, t);
    var u, v := Node(Zip(s, pl), t.row, t.right), Patched(t, s, pl, pred);
    DeepInOrder(c, t, s, pl, pred, InOrder(w), n);
    assert n - 1 + 1 == n;
    CutApart(root, w, c, u, n - 1);
    CutApart(root, w, c, v, n);
  }

  lemma RoamingZip(h: Memory, root: Row, c: Ctx, t: Tree)
    ensures Roaming(h, root, c, t) <==> Roaming(h, root, Top, Zip(c, t))
  {
    ApartZip(c, t, root);
    ZipRows(c, t);
    PlacedZip(h, c, t, root);
  }

  lemma SplicedKeeps(h: Memory, g: Memory, root: Row, p: Row, side: bool, sub: Row?)
    requires Spliced(h, g, p, side, sub) && Sentinel(h, root) && root != sub && (p == root ==> !side)
    ensures Sentinel(g, root) && g.Keys == h.Keys && SameSizes(h, g, h.Keys)
  {
  }

  /** After the first pointer step the predecessor is cut out. */
  lemma DeepMiddle(h: Memory, g: Memory, root: Row, c: Ctx, t: Tree, s: Ctx, pl: Tree, pred: Row)
    requires t.Node? && ToLast(s, t.left, pl, pred) && Sound(h, root, Zip(c, t))
    requires var d := Below(s, t.row, t.right, c); Spliced(h, g, Owner(d, root), d.InLeft?, Apex(pl))
    ensures Placed(g, c, Node(Zip(s, pl), t.row, t.right), root) && Sentinel(g, root)
    ensures g.Keys == h.Keys && SameSizes(h, g, h.Keys)
  {
    var d := Below(s, t.row, t.right, c);
    BelowZip(s, t.row, t.right, c, Node(pl, pred, Nil));
    Settled(h, root, d, Node(pl, pred, Nil));
    SplicedPlaced(h, g, root, d, Node(pl, pred, Nil), pl);
    SplicedKeeps(h, g, root, Owner(d, root), d.InLeft?, Apex(pl));
    PlacedZip(g, d, pl, root);
    BelowZip(s, t.row, t.right, c, pl);
    PlacedZip(g, c, Node(Zip(s, pl), t.row, t.right), root);
  }

  lemma ReplacedKeeps(h: Memory, g: Memory, root: Row, row: Row, pred: Row)
    requires Replaced(h, g, row, pred) && Sentinel(h, root) && root != pred && root != h[row].left
    requires root != h[row].right
    requires h[row].parent == root ==> !h[row].fLeft
    requires h[row].parent !in {pred, h[row].left, h[row].right}
    ensures Sentinel(g, root) && g.Keys == h.Keys && SameSizes(h, g, h.Keys)
  {
  }

  /** What `TakePlace` needs to know about the row after the predecessor was cut out. */
  lemma PlaceTakeable(g: Memory, root: Row, c: Ctx, v: Tree, pred: Row)
    requires v.Node? && Placed(g, c, v, root) && Apart(c, v, root) && pred != root && pred !in CtxRows(c)
    requires pred !in Rows(v)
    ensures v.row in g && g[v.row].parent == Owner(c, root) && g[v.row].left == Apex(v.left)
    ensures g[v.row].right == Apex(v.right)
    ensures Owner(c, root) in g && (v.left.Node? ==> v.left.row in g) && (v.right.Node? ==> v.right.row in g)
    ensures Owner(c, root) !in {pred, Apex(v.left), Apex(v.right)} && Owner(c, root) != v.row && v.row != pred
    ensures pred !in {Apex(v.left), Apex(v.right)} && v.row !in {Apex(v.left), Apex(v.right)}
    ensures v.left.Node? ==> Apex(v.left) != Apex(v.right)
  {
    RootKnown(g, c, root, v.row);
    assert Linked(g, v.left, v.row, true) && Linked(g, v.right, v.row, false);
    assert v.left.Node? ==> v.left.row in Rows(v.left);
    assert v.right.Node? ==> v.right.row in Rows(v.right);
  }

  /** The second pointer step puts `pred` in the place of a row, which can then go. */
  lemma ReplacedRoaming(g: Memory, k: Memory, root: Row, c: Ctx, v: Tree, pred: Row)
    requires v.Node? && Placed(g, c, v, root) && Apart(c, v, root) && Sentinel(g, root)
    requires pred != root && pred !in CtxRows(c) && pred !in Rows(v) && Apart(c, Node(v.left, pred, v.right), root)
    requires g.Keys - {v.row} == Everyone(root, c, Node(v.left, pred, v.right)) && Replaced(g, k, v.row, pred)
    ensures Roaming(Without(k, v.row), root, c, Node(v.left, pred, v.right))
    ensures k.Keys == g.Keys && SameSizes(g, k, g.Keys)
  {
    var w := Node(v.left, pred, v.right);
    PlaceTakeable(g, root, c, v, pred);
    ReplacedPlaced(g, k, root, c, v, pred);
    ReplacedKeeps(g, k, root, v.row, pred);
    assert v.row !in Everyone(root, c, w);
    WithoutPlaced(k, root, c, w, v.row);
  }

  /** Both pointer steps together leave the patched tree in place, without the row. */
  lemma DeepRoaming(h: Memory, g: Memory, k: Memory, root: Row, c: Ctx, t: Tree, s: Ctx, pl: Tree, pred: Row)
    requires t.Node? && ToLast(s, t.left, pl, pred) && Sound(h, root, Zip(c, t))
    requires var d := Below(s, t.row, t.right, c); Spliced(h, g, Owner(d, root), d.InLeft?, Apex(pl))
    requires Replaced(g, k, t.row, pred)
    ensures Roaming(Without(k, t.row), root, c, Patched(t, s, pl, pred))
    ensures SameSizes(h, Without(k, t.row), h.Keys - {t.row})
  {
    DeepMiddle(h, g, root, c, t, s, pl, pred);
    DeepApart(root, c, t, s, pl, pred);
    ReplacedRoaming(g, k, root, c, Node(Zip(s, pl), t.row, t.right), pred);
  }

  /** The pointers are patched; sizes are right except for `pred` and the rows above it. */
  ghost predicate Cut(k: Memory, root: Row, c: Ctx, t: Tree, s: Ctx, pl: Tree, pred: Row)
    requires t.Node?
  {
    Roaming(k, root, c, Patched(t, s, pl, pred)) && Exact(k, pl) && SidesExact(k, Below(s, pred, t.right, c))
  }

  lemma DeepCut(h: Memory, g: Memory, k: Memory, root: Row, c: Ctx, t: Tree, s: Ctx, pl: Tree, pred: Row)
    requires t.Node? && ToLast(s, t.left, pl, pred) && Sound(h, root, Zip(c, t))
    requires var d := Below(s, t.row, t.right, c); Spliced(h, g, Owner(d, root), d.InLeft?, Apex(pl))
    requires Replaced(g, k, t.row, pred)
    ensures Cut(Without(k, t.row), root, c, t, s, pl, pred)
  {
    DeepRoaming(h, g, k, root, c, t, s, pl, pred);
    CutSizes(h, Without(k, t.row), root, c, t, s, pl, pred);
  }

  lemma CutSizes(h: Memory, m: Memory, root: Row, c: Ctx, t: Tree, s: Ctx, pl: Tree, pred: Row)
    requires t.Node? && ToLast(s, t.left, pl, pred) && Exact(h, Zip(c, t))
    requires m.Keys == Everyone(root, c, Patched(t, s, pl, pred)) && SameSizes(h, m, m.Keys)
    ensures Exact(m, pl) && SidesExact(m, Below(s, pred, t.right, c))
  {
    var d := Below(s, pred, t.right, c);
    BelowZip(s, t.row, t.right, c, Node(pl, pred, Nil));
    ExactUnzip(h, Below(s, t.row, t.right, c), Node(pl, pred, Nil));
    Relabel(h, s, t.row, pred, t.right, c);
    BelowZip(s, pred, t.right, c, pl);
    ZipRows(d, pl);
    ZipRows(c, Patched(t, s, pl, pred));
    ExactKept(h, m, pl);
    SidesExactKept(h, m, d);
  }

  /** The walk from the former parent of `pred`, when that parent is still in the tree. */
  lemma CutWalking(k: Memory, root: Row, c: Ctx, t: Tree, s: Ctx, pl: Tree, pred: Row)
    requires t.Node? && Cut(k, root, c, t, s, pl, pred)
    ensures var d := Below(s, pred, t.right, c); Walking(k, root, Owner(d, root), UpCtx(d), UpTree(d, pl))
  {
    var d := Below(s, pred, t.right, c);
    RoamingZip(k, root, c, Patched(t, s, pl, pred));
    BelowZip(s, pred, t.right, c, pl);
    RoamingZip(k, root, d, pl);
    WalkFromOwner(k, root, d, pl);
  }

  /** The walk from `pred`, after a walk that began at the removed row itself. */
  lemma CutStrayed(k: Memory, m: Memory, root: Row, c: Ctx, t: Tree, pl: Tree, pred: Row)
    requires t.Node? && Cut(k, root, c, t, Top, pl, pred)
    requires Roaming(m, root, Top, Zip(c, Patched(t, Top, pl, pred))) && SameOutside(k, m, Spine(c) + {root})
    ensures Walking(m, root, pred, c, Patched(t, Top, pl, pred))
  {
    var u := Patched(t, Top, pl, pred);
    RoamingZip(m, root, c, u);
    SpineRows(c);
    assert Rows(pl) <= Rows(u) && Rows(t.right) <= Rows(u) && Rows(u) !! CtxRows(c);
    ExactKept(k, m, pl);
    ExactKept(k, m, t.right);
    SidesOffSpine(k, m, root, c, Spine(c) + {root});
  }

  /** Puts `pred` in the place of `row`. */
  method TakePlace(row: Row, pred: Row, ghost rep: set<Row>)
    requires row in rep && pred in rep && row.parent in rep
    requires (row.left == null || row.left in rep) && (row.right == null || row.right in rep)
    requires row.parent !in {pred, row.left, row.right} && row.parent != row && row != pred
    requires pred !in {row.left, row.right} && row !in {row.left, row.right}
    requires row.left == null || row.left != row.right
    modifies (rep - {row})`parent, (rep - {row})`fLeft, (rep - {row})`left, (rep - {row})`right
    ensures Replaced(old(Snap(rep)), Snap(rep), row, pred)
  {
    if row.fLeft {
      row.parent.left := pred;
    } else {
      row.parent.right := pred;
    }
    pred.parent, pred.fLeft, pred.left, pred.right := row.parent, row.fLeft, row.left, row.right;
    if pred.left != null {
      pred.left.parent := pred;
    }
    if pred.right != null {
      pred.right.parent := pred;
    }
  }

  /** The pointer part of a removal with two children; reports the former parent of `pred`. */
  method CutDeep(
    root: Row, row: Row, pred: Row, ghost c: Ctx, ghost t: Tree, ghost s: Ctx, ghost pl: Tree, ghost rep: set<Row>)
    returns (predParent: Row)
    requires Sound(Snap(rep), root, Zip(c, t)) && t.Node? && t.row == row && ToLast(s, t.left, pl, pred)
    modifies rep`parent, rep`fLeft, rep`left, rep`right
    ensures Cut(Snap(rep - {row}), root, c, t, s, pl, pred)
    ensures predParent == if s.Top? then row else Owner(Below(s, pred, t.right, c), root)
    ensures row.parent == Owner(c, root) && row.left == Apex(Zip(s, pl)) && row.right == Apex(t.right)
  {
    ghost var h, d, v := Snap(rep), Below(s, row, t.right, c), Node(Zip(s, pl), row, t.right);
    BelowZip(s, row, t.right, c, Node(pl, pred, Nil));
    Neighbours(h, root, d, Node(pl, pred, Nil));
    assert CellOf(pred) == h[pred];
    predParent := pred.parent;
    Splice(pred.parent, pred.fLeft, pred.left, rep);
    ghost var g := Snap(rep);
    DeepMiddle(h, g, root, c, t, s, pl, pred);
    DeepApart(root, c, t, s, pl, pred);
    PlaceTakeable(g, root, c, v, pred);
    assert CellOf(row) == g[row];
    TakePlace(row, pred, rep);
    DeepCut(h, g, Snap(rep), root, c, t, s, pl, pred);
    SnapWithout(rep, row);
  }

  // ---------- balance after a removal with two children ----------

  /**
   Losing the last row either costs the left subtree a level of height and leaves it
   balanced inside, or leaves an imbalance inside and its height as it was.
   */
  lemma {:induction false} LastLost(s: Ctx, pl: Tree, pred: Row)
    requires Balanced(Zip(s, Node(pl, pred, Nil))) && After(s) == []
    ensures var t, u := Zip(s, Node(pl, pred, Nil)), Zip(s, pl);
      Height(u) == Height(t) || (Balanced(u) && Height(u) == Height(t) - 1)
  {
    BalancedUnzip(s, Node(pl, pred, Nil));
    assert Height(Node(pl, pred, Nil)) == Height(pl) + 1;
    LastLostIn(s, Node(pl, pred, Nil), pl);
  }

  /** The same for any subtree that gets lower by at most one on the right spine. */
  lemma {:induction false} LastLostIn(s: Ctx, t: Tree, u: Tree)
    requires Balanced(Zip(s, t)) && After(s) == []
    requires Height(u) == Height(t) || (Balanced(u) && Height(u) == Height(t) - 1)
    ensures var a, b := Zip(s, t), Zip(s, u);
      Height(b) == Height(a) || (Balanced(b) && Height(b) == Height(a) - 1)
    decreases s
  {
    match s
    case Top =>
    case InRight(l, r, up) =>
      BalancedUnzip(s, t);
      assert Balance(Node(l, r, u)) == Height(l) - Height(u);
      LastLostIn(up, Node(l, r, t), Node(l, r, u));
  }

  /** A left subtree as high as before leaves the row above it level. */
  lemma SameHeightRepairs(c: Ctx, t: Tree, l: Tree, pred: Row)
    requires t.Node? && Level(t) && CtxBalanced(c, Height(t)) && Balanced(t.right) && Height(l) == Height(t.left)
    ensures var u := Node(l, pred, t.right);
      Repairing(c, u, Height(t), Balanced(l)) && Level(u) && Height(u) == Height(t)
  {
    var u := Node(l, pred, t.right);
    assert Balance(u) == Balance(t) && Height(u) == Height(t);
    assert Restructured(u) == u;
  }

  /** A balanced left subtree one lower than before is mended by one step. */
  lemma LowerRepairs(c: Ctx, t: Tree, l: Tree, pred: Row)
    requires t.Node? && Level(t) && CtxBalanced(c, Height(t)) && Balanced(t.right)
    requires Balanced(l) && Height(l) == Height(t.left) - 1
    ensures Repairing(c, Node(l, pred, t.right), Height(t), true)
  {
    var d := InLeft(pred, t.right, c);
    assert Height(t) == 1 + Max(Height(t.left), Height(t.right));
    assert CtxBalanced(d, Height(t.left));
    MendedAbove(d, l, Height(t.left));
  }

  /** Around `pred` the context was balanced before. */
  lemma BelowBalanced(c: Ctx, t: Tree, s: Ctx, pl: Tree, pred: Row)
    requires t.Node? && ToLast(s, t.left, pl, pred) && Balanced(Zip(c, t))
    ensures CtxBalanced(Below(s, pred, t.right, c), Height(pl) + 1) && Balanced(pl)
  {
    BelowZip(s, t.row, t.right, c, Node(pl, pred, Nil));
    BalancedUnzip(Below(s, t.row, t.right, c), Node(pl, pred, Nil));
    assert Height(Node(pl, pred, Nil)) == Height(pl) + 1;
    RelabelBalanced(s, t.row, pred, t.right, c, Height(pl) + 1);
  }

  /** The walk from `pred`: it restores balance unless the imbalance is deeper down, and then changes nothing. */
  lemma FirstWalk(c: Ctx, t: Tree, s: Ctx, pl: Tree, pred: Row)
    requires t.Node? && ToLast(s, t.left, pl, pred) && Balanced(Zip(c, t))
    ensures var u, deep := Patched(t, s, pl, pred), Balanced(Zip(s, pl));
      Repairing(c, u, Height(t), deep) && (!deep ==> Level(u) && Height(u) == Height(t) && !s.Top?)
  {
    BalancedUnzip(c, t);
    BelowBalanced(c, t, s, pl, pred);
    LastLost(s, pl, pred);
    if Height(Zip(s, pl)) == Height(t.left) {
      SameHeightRepairs(c, t, Zip(s, pl), pred);
    } else {
      LowerRepairs(c, t, Zip(s, pl), pred);
    }
  }

  /** The walk from the former parent of `pred`, when the first walk changed nothing. */
  lemma SecondWalk(c: Ctx, t: Tree, s: Ctx, pl: Tree, pred: Row)
    requires t.Node? && ToLast(s, t.left, pl, pred) && Balanced(Zip(c, t)) && !s.Top?
    ensures var d := Below(s, pred, t.right, c);
      !d.Top? && Repairing(d.up, Wrap(d, pl), Raised(d, Height(pl) + 1), true)
  {
    var d := Below(s, pred, t.right, c);
    BelowBalanced(c, t, s, pl, pred);
    assert !d.Top?;
    MendedAbove(d, pl, Height(pl) + 1);
  }

  /** In a balanced tree a repair walk may start anywhere. */
  lemma WalkAnywhere(c: Ctx, t: Tree)
    requires t.Node? && Balanced(Zip(c, t))
    ensures Repairing(c, t, Height(t), true)
  {
    BalancedUnzip(c, t);
  }

  /** Both counting walks of a removal with two children. */
  method CountDeep(
    root: Row, row: Row, pred: Row, predParent: Row, ghost c: Ctx, ghost t: Tree, ghost s: Ctx, ghost pl: Tree,
    ghost less: set<Row>)
    requires t.Node? && t.row == row && row !in less && pred != root && Cut(Snap(less), root, c, t, s, pl, pred)
    requires predParent == if s.Top? then row else Owner(Below(s, pred, t.right, c), root)
    requires row.parent == Owner(c, root) && row.left == Apex(Zip(s, pl)) && row.right == Apex(t.right)
    modifies less`height, less`branchCount, row`height, row`branchCount
    ensures Sound(Snap(less), root, Zip(c, Patched(t, s, pl, pred)))
  {
    ghost var k, u, d := Snap(less), Patched(t, s, pl, pred), Below(s, pred, t.right, c);
    if s.Top? {
      ApexKnown(k, root, c, u);
    } else {
      CutWalking(k, root, c, t, s, pl, pred);
      BelowZip(s, pred, t.right, c, pl);
    }
    UpdateCounts(root, predParent, if s.Top? then c else UpCtx(d), if s.Top? then u else UpTree(d, pl), less);
    if s.Top? {
      CutStrayed(k, Snap(less), root, c, t, pl, pred);
    } else {
      Settled(Snap(less), root, c, u);
    }
    UpdateCounts(root, pred, c, u, less);
  }

  /** The former parent of `pred` is still in the tree after the first repair walk. */
  lemma ParentStays(root: Row, c: Ctx, t: Tree, s: Ctx, pl: Tree, pred: Row, v: Tree)
    requires t.Node? && !s.Top? && InOrder(v) == InOrder(Zip(c, Patched(t, s, pl, pred)))
    ensures Owner(Below(s, pred, t.right, c), root) in Rows(v)
  {
    var d := Below(s, pred, t.right, c);
    BelowZip(s, pred, t.right, c, pl);
    ZipRows(d, pl);
    InOrderRows(v);
    InOrderRows(Zip(d, pl));
  }

  /** The repair walk from the former parent of `pred`. */
  method RepairFromParent(
    root: Row, predParent: Row, ghost c: Ctx, ghost t: Tree, ghost s: Ctx, ghost pl: Tree, ghost pred: Row,
    ghost v: Tree, ghost less: set<Row>)
    returns (ghost result: Tree)
    requires t.Node? && ToLast(s, t.left, pl, pred) && Balanced(Zip(c, t)) && !s.Top?
    requires predParent == Owner(Below(s, pred, t.right, c), root)
    requires Sound(Snap(less), root, v) && InOrder(v) == InOrder(Zip(c, Patched(t, s, pl, pred)))
    requires Balanced(v) || v == Zip(c, Patched(t, s, pl, pred))
    modifies less`parent, less`fLeft, less`left, less`right, less`height, less`branchCount
    ensures Sound(Snap(less), root, result) && Balanced(result) && InOrder(result) == InOrder(v)
  {
    ghost var d := Below(s, pred, t.right, c);
    ghost var e, w, k := d.up, Wrap(d, pl), 0;
    if Balanced(v) {
      ParentStays(root, c, t, s, pl, pred, v);
      var z := Locate(Top, v, predParent);
      e, w := z.0, z.1;
      k := Height(w);
      WalkAnywhere(e, w);
    } else {
      SecondWalk(c, t, s, pl, pred);
      BelowZip(s, pred, t.right, c, pl);
      k := Raised(d, Height(pl) + 1);
    }
    Local(Snap(less), root, e, w);
    result := RestructureRecursive(root, predParent, e, w, k, true, less);
  }

  /** The removal up to the repair walks. */
  method CutAndCount(root: Row, row: Row, ghost c: Ctx, ghost t: Tree, ghost rep: set<Row>, ghost less: set<Row>)
    returns (pred: Row, predParent: Row, ghost s: Ctx, ghost pl: Tree)
    requires Sound(Snap(rep), root, Zip(c, t)) && less == rep - {row} && row in rep
    requires t.Node? && t.row == row && t.left.Node? && t.right.Node?
    modifies rep`parent, rep`fLeft, rep`left, rep`right, rep`height, rep`branchCount
    ensures ToLast(s, t.left, pl, pred) && Sound(Snap(less), root, Zip(c, Patched(t, s, pl, pred)))
    ensures predParent == if s.Top? then row else Owner(Below(s, pred, t.right, c), root)
    ensures row.parent == Owner(c, root) && (row.left == null || row.left in less) && pred != root
  {
    pred, s, pl := FindPredecessor(root, row, c, t, rep);
    DeepApart(root, c, t, s, pl, pred);
    predParent := CutDeep(root, row, pred, c, t, s, pl, rep);
    ApexKnown(Snap(less), root, c, Patched(t, s, pl, pred));
    CountDeep(root, row, pred, predParent, c, t, s, pl, less);
  }

  /** The two repair walks of a removal with two children. */
  method RepairDeep(
    root: Row, row: Row, pred: Row, predParent: Row, ghost c: Ctx, ghost t: Tree, ghost s: Ctx, ghost pl: Tree,
    ghost less: set<Row>)
    returns (ghost result: Tree)
    requires t.Node? && t.row == row && ToLast(s, t.left, pl, pred) && Balanced(Zip(c, t)) && pred != root
    requires Sound(Snap(less), root, Zip(c, Patched(t, s, pl, pred))) && row !in less
    requires predParent == if s.Top? then row else Owner(Below(s, pred, t.right, c), root)
    requires forall r :: r in less && r != root && r.key == row.key ==> r == row
    modifies less`parent, less`fLeft, less`left, less`right, less`height, less`branchCount
    ensures Sound(Snap(less), root, result) && Balanced(result)
    ensures InOrder(result) == InOrder(Zip(c, Patched(t, s, pl, pred)))
  {
    ghost var u := Patched(t, s, pl, pred);
    FirstWalk(c, t, s, pl, pred);
    result := RestructureRecursive(root, pred, c, u, Height(t), Balanced(Zip(s, pl)), less);
    if !s.Top? {
      ParentStays(root, c, t, s, pl, pred, result);
    }
    ParentDiffers(Snap(less), root, result, row, predParent, less);
    if predParent.key != row.key {
      result := RepairFromParent(root, predParent, c, t, s, pl, pred, result, less);
    }
  }

  /** Removal of a row with two children: its predecessor takes its place. */
  method RemoveDeep(root: Row, row: Row, ghost c: Ctx, ghost t: Tree, ghost rep: set<Row>, ghost less: set<Row>)
    returns (ghost s: Ctx, ghost pl: Tree, ghost pred: Row, ghost result: Tree)
    requires Sound(Snap(rep), root, Zip(c, t)) && Balanced(Zip(c, t)) && less == rep - {row} && row in rep
    requires t.Node? && t.row == row && t.left.Node? && t.right.Node?
    requires forall r :: r in rep && r != root && r.key == row.key ==> r == row
    modifies rep`parent, rep`fLeft, rep`left, rep`right, rep`height, rep`branchCount
    ensures Sound(Snap(less), root, result) && Balanced(result)
    ensures row.parent == Owner(c, root) && (row.left == null || row.left in less)
    ensures ToLast(s, t.left, pl, pred) && InOrder(result) == InOrder(Zip(c, Patched(t, s, pl, pred)))
  {
    var last, predParent;
    last, predParent, s, pl := CutAndCount(root, row, c, t, rep, less);
    pred := last;
    result := RepairDeep(root, row, last, predParent, c, t, s, pl, less);
  }

  lemma ShallowLoses(tree: Tree, n: nat, c: Ctx, t: Tree, result: Tree)
    requires t.Node? && tree == Zip(c, t) && n == Pos(c, t) && n < |InOrder(tree)|
    requires (t.left.Nil? || t.right.Nil?) && InOrder(result) == InOrder(Zip(c, Remainder(t)))
    ensures InOrder(result) == InOrder(tree)[..n] + InOrder(tree)[n + 1..]
  {
    RemainderInOrder(c, t);
  }

  lemma DeepLoses(tree: Tree, n: nat, c: Ctx, t: Tree, s: Ctx, pl: Tree, pred: Row, result: Tree)
    requires t.Node? && tree == Zip(c, t) && n == Pos(c, t) && n < |InOrder(tree)|
    requires ToLast(s, t.left, pl, pred) && InOrder(result) == InOrder(Zip(c, Patched(t, s, pl, pred)))
    ensures InOrder(result) == InOrder(tree)[..n] + InOrder(tree)[n + 1..]
  {
    DeepInOrder(c, t, s, pl, pred, InOrder(tree), n);
  }

  /** A row out of the tree: the three cases of the deletion. */
  method Remove(root: Row, row: Row, ghost n: nat, ghost tree: Tree, ghost rep: set<Row>, ghost less: set<Row>)
    returns (ghost result: Tree)
    requires Sound(Snap(rep), root, tree) && Balanced(tree) && less == rep - {row}
    requires n < |InOrder(tree)| && InOrder(tree)[n] == row
    requires forall r :: r in rep && r != root && r.key == row.key ==> r == row
    modifies rep`parent, rep`fLeft, rep`left, rep`right, rep`height, rep`branchCount
    ensures Sound(Snap(less), root, result) && Balanced(result)
    ensures InOrder(result) == InOrder(tree)[..n] + InOrder(tree)[n + 1..]
    ensures row.parent in less && (row.left == null || row.left in less)
  {
    ghost var h := Snap(rep);
    ghost var c, t := Find(h, root, tree, n);
    assert Zip(c, t) == tree;
    Neighbours(h, root, c, t);
    assert CellOf(row) == h[row];
    if row.left == null || row.right == null {
      result := RemoveShallow(root, row, c, t, rep, less);
      ShallowLoses(tree, n, c, t, result);
    } else {
      ghost var s, pl, pred;
      s, pl, pred, result := RemoveDeep(root, row, c, t, rep, less);
      DeepLoses(tree, n, c, t, s, pl, pred, result);
    }
  }

  /** Comparing keys tells the removed row from a row that is left. */
  lemma ParentDiffers(h: Memory, root: Row, v: Tree, row: Row, predParent: Row, less: set<Row>)
    requires Sound(h, root, v) && h.Keys == less && row !in less
    requires predParent == row || predParent in Rows(v)
    requires forall r :: r in less && r != root && r.key == row.key ==> r == row
    ensures predParent.key == row.key <==> predParent == row
  {
  }
}
