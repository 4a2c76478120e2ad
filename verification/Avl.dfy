/** Height balance of row trees, and why one walk towards the root restores it. */
module Avl {
  import opened RowTree
  import opened Memory
  import opened Counting
  import Bits

  ghost function Balance(t: Tree): int {
    if t.Nil? then 0 else Height(t.left) - Height(t.right)
  }

  ghost predicate Level(t: Tree) {
    -1 <= Balance(t) <= 1
  }

  /** Every row has subtrees whose heights differ by at most one. */
  ghost predicate Balanced(t: Tree) {
    t.Node? ==> Level(t) && Balanced(t.left) && Balanced(t.right)
  }

  /** The left child becomes the root, the row its right child. */
  ghost function TurnedL(t: Tree): Tree
    requires t.Node? && t.left.Node?
  {
    Node(t.left.left, t.left.row, Node(t.left.right, t.row, t.right))
  }

  ghost function TurnedR(t: Tree): Tree
    requires t.Node? && t.right.Node?
  {
    Node(Node(t.left, t.row, t.right.left), t.right.row, t.right.right)
  }

  ghost function Restructured(t: Tree): Tree
    requires t.Node?
  {
    if Balance(t) > 1 then
      if Balance(t.left) >= 0 then TurnedL(t) else TurnedL(Node(TurnedR(t.left), t.row, t.right))
    else if Balance(t) < -1 then
      if Balance(t.right) <= 0 then TurnedR(t) else TurnedR(Node(t.left, t.row, TurnedL(t.right)))
    else t
  }

  lemma RestructuredInOrder(t: Tree)
    requires t.Node?
    ensures InOrder(Restructured(t)) == InOrder(t)
  {
    if Balance(t) > 1 {
      var l := t.left;
      assert InOrder(l) == InOrder(l.left) + [l.row] + InOrder(l.right);
      if Balance(l) >= 0 {
        TurnedLInOrder(t);
      } else {
        TurnedRInOrder(l);
        TurnedLInOrder(Node(TurnedR(l), t.row, t.right));
      }
    } else if Balance(t) < -1 {
      var r := t.right;
      assert InOrder(r) == InOrder(r.left) + [r.row] + InOrder(r.right);
      if Balance(r) <= 0 {
        TurnedRInOrder(t);
      } else {
        TurnedLInOrder(r);
        TurnedRInOrder(Node(t.left, t.row, TurnedL(r)));
      }
    }
  }

  lemma Regrouped(a: seq<Row>, p: Row, b: seq<Row>, r: Row, e: seq<Row>)
    ensures (a + [p] + b) + [r] + e == a + [p] + (b + [r] + e)
  {
  }

  lemma TurnedLInOrder(t: Tree)
    requires t.Node? && t.left.Node?
    ensures InOrder(TurnedL(t)) == InOrder(t)
  {
    Regrouped(InOrder(t.left.left), t.left.row, InOrder(t.left.right), t.row, InOrder(t.right));
  }

  lemma TurnedRInOrder(t: Tree)
    requires t.Node? && t.right.Node?
    ensures InOrder(TurnedR(t)) == InOrder(t)
  {
    Regrouped(InOrder(t.left), t.row, InOrder(t.right.left), t.right.row, InOrder(t.right.right));
  }

  /** The context would be balanced around a hole of height `h`. */
  ghost predicate CtxBalanced(c: Ctx, h: nat) {
    match c
    case Top => true
    case InLeft(_, s, up) => Balanced(s) && -1 <= h - Height(s) <= 1 && CtxBalanced(up, 1 + Max(h, Height(s)))
    case InRight(s, _, up) => Balanced(s) && -1 <= h - Height(s) <= 1 && CtxBalanced(up, 1 + Max(h, Height(s)))
  }

  ghost predicate Near(a: int, b: int) {
    -1 <= a - b <= 1
  }

  /** One restructuring step levels `t` and brings it within one of height `h`. */
  ghost predicate Mendable(t: Tree, h: nat) {
    t.Node? && Level(Restructured(t)) && Near(Height(Restructured(t)), h)
  }

  /** A row whose subtrees differ by two, the higher one being level itself. */
  lemma Mended(t: Tree)
    requires t.Node? && -2 <= Balance(t) <= 2
    requires Balance(t) == 2 ==> Level(t.left)
    requires Balance(t) == -2 ==> Level(t.right)
    ensures Level(Restructured(t))
    ensures Level(t) ==> Restructured(t) == t
    ensures !Level(t) ==> Height(t) - 1 <= Height(Restructured(t)) <= Height(t)
    ensures Balanced(t.left) && Balanced(t.right) ==> Balanced(Restructured(t))
  {
    if Balance(t) == 2 {
      if Balance(t.left) >= 0 {
        LiftLeft(t.left.left, t.left.row, t.left.right, t.row, t.right);
      } else {
        var l := t.left;
        LiftInner(l.left, l.row, l.right.left, l.right.row, l.right.right, t.row, t.right);
      }
    } else if Balance(t) == -2 {
      if Balance(t.right) <= 0 {
        LiftRight(t.left, t.row, t.right.left, t.right.row, t.right.right);
      } else {
        var r := t.right;
        LiftInner(t.left, t.row, r.left.left, r.left.row, r.left.right, r.row, r.right);
      }
    }
  }

  lemma LiftLeft(a: Tree, l: Row, b: Tree, p: Row, e: Tree)
    requires 0 <= Height(a) - Height(b) <= 1 && Height(a) == Height(e) + 1
    ensures var u := Node(a, l, Node(b, p, e));
      Level(u) && Height(a) + 1 <= Height(u) <= Height(a) + 2 &&
        (Balanced(a) && Balanced(b) && Balanced(e) ==> Balanced(u))
  {
    var low := Node(b, p, e);
    assert Height(low) == 1 + Max(Height(b), Height(e)) && Balance(low) == Height(b) - Height(e);
    assert Balance(Node(a, l, low)) == Height(a) - Height(low);
  }

  lemma LiftRight(a: Tree, p: Row, b: Tree, r: Row, e: Tree)
    requires -1 <= Height(b) - Height(e) <= 0 && Height(e) == Height(a) + 1
    ensures var u := Node(Node(a, p, b), r, e);
      Level(u) && Height(e) + 1 <= Height(u) <= Height(e) + 2 &&
        (Balanced(a) && Balanced(b) && Balanced(e) ==> Balanced(u))
  {
    var low := Node(a, p, b);
    assert Height(low) == 1 + Max(Height(a), Height(b)) && Balance(low) == Height(a) - Height(b);
    assert Balance(Node(low, r, e)) == Height(low) - Height(e);
  }

  lemma LiftInner(a: Tree, l: Row, b: Tree, m: Row, d: Tree, p: Row, e: Tree)
    requires Height(a) == Height(e) && Max(Height(b), Height(d)) == Height(a)
    ensures var u := Node(Node(a, l, b), m, Node(d, p, e));
      Level(u) && Height(u) == Height(a) + 2 &&
      (Balanced(a) && Balanced(Node(b, m, d)) && Balanced(e) ==> Balanced(u))
  {
    var x, y := Node(a, l, b), Node(d, p, e);
    assert Height(x) == 1 + Height(a) && Height(y) == 1 + Height(a);
    assert Balance(Node(x, m, y)) == 0 && Balance(Node(b, m, d)) == Height(b) - Height(d);
  }

  /** The hole is filled with a level tree `t` of about the height it had, `h`. */
  lemma MendedAbove(c: Ctx, t: Tree, h: nat)
    requires !c.Top? && CtxBalanced(c, h) && Level(t) && Near(Height(t), h)
    ensures var s := if c.InLeft? then c.right else c.left;
      var k := 1 + Max(h, Height(s));
      && CtxBalanced(c.up, k) && Mendable(Wrap(c, t), k)
      && (Balanced(t) ==> Balanced(Restructured(Wrap(c, t))))
      && (Height(t) == h ==> Level(Wrap(c, t)) && Height(Wrap(c, t)) == k)
  {
    Mended(Wrap(c, t));
  }

  lemma {:induction false} BalancedUnzip(c: Ctx, t: Tree)
    ensures Balanced(Zip(c, t)) <==> Balanced(t) && CtxBalanced(c, Height(t))
    decreases c
  {
    match c
    case Top =>
    case InLeft(r, rt, up) =>
      var n := Node(t, r, rt);
      assert Height(n) == 1 + Max(Height(t), Height(rt)) && Balance(n) == Height(t) - Height(rt);
      BalancedUnzip(up, n);
    case InRight(l, r, up) =>
      var n := Node(l, r, t);
      assert Height(n) == 1 + Max(Height(t), Height(l)) && Balance(n) == Height(l) - Height(t);
      BalancedUnzip(up, n);
  }

  // ---------- what the balance is for ----------

  /** The height is that of the longest way down, and a way as long exists. */
  lemma {:induction false} HeightAbove(c: Ctx, t: Tree)
    ensures Height(Zip(c, t)) >= Depth(c) + Height(t)
    decreases c
  {
    match c
    case Top =>
    case InLeft(r, rt, up) => HeightAbove(up, Node(t, r, rt));
    case InRight(l, r, up) => HeightAbove(up, Node(l, r, t));
  }

  lemma {:induction false} HeightReached(outer: Ctx, t: Tree) returns (c: Ctx)
    ensures Zip(c, Nil) == Zip(outer, t) && Depth(c) == Depth(outer) + Height(t)
    decreases t
  {
    match t
    case Nil => c := outer;
    case Node(l, r, rt) =>
      if Height(l) >= Height(rt) {
        c := HeightReached(InLeft(r, rt, outer), l);
      } else {
        c := HeightReached(InRight(l, r, outer), rt);
      }
  }

  lemma {:induction false} PowerGrows(m: nat, n: nat)
    requires m <= n
    ensures Bits.Power(m) <= Bits.Power(n)
    decreases n
  {
    if m < n {
      PowerGrows(m, n - 1);
    }
  }

  /** A balanced tree is shallow: the number of rows at least doubles with every two levels. */
  lemma {:induction false} BalancedIsShallow(t: Tree)
    requires Balanced(t)
    ensures |InOrder(t)| + 1 >= Bits.Power((Height(t) + 1) / 2)
  {
    if t.Node? {
      BalancedIsShallow(t.left);
      BalancedIsShallow(t.right);
      var h := Height(t);
      PowerGrows((h + 1) / 2 - 1, (Height(t.left) + 1) / 2);
      PowerGrows((h + 1) / 2 - 1, (Height(t.right) + 1) / 2);
    }
  }
}
