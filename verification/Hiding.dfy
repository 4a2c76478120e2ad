/** Changing the visibility of a row, blocks of rows that share a sort prefix, and clearing the tree. */
module Hiding {
  import opened RowOrder
  import opened RowTree
  import opened Memory
  import opened Counting
  import opened Rotations
  import opened Navigation
  import opened Search
  import opened RankSelect
  import opened Removal

  lemma HiddenWalking(h: Memory, g: Memory, root: Row, c: Ctx, t: Tree, hidden: bool)
    requires t.Node? && Sound(h, root, Zip(c, t)) && t.row in h && g == h[t.row := h[t.row].(hidden := hidden)]
    ensures Walking(g, root, t.row, c, t)
  {
    Settled(h, root, c, t);
    LinkedKept(h, g, t, Owner(c, root), c.InLeft?);
    CtxLinkedKept(h, g, c, root, t.row);
    SidesExactKept(h, g, c);
    ExactKept(h, g, t.left);
    ExactKept(h, g, t.right);
  }

  /** The hidden flags of `g` are those of `h`, except for one row. */
  ghost predicate Marked(h: Memory, g: Memory, row: Row, hidden: bool) {
    h.Keys == g.Keys && row in h && forall r :: r in h ==> g[r].hidden == if r == row then hidden else h[r].hidden
  }

  lemma ResizedMarked(h: Memory, m: Memory, g: Memory, row: Row, hidden: bool)
    requires row in h && m == h[row := h[row].(hidden := hidden)] && Resized(m, g)
    ensures Marked(h, g, row, hidden)
  {
  }

  /** Sets the hidden flag of the row at position `n` and counts again. */
  method MarkHidden(root: Row, row: Row, hidden: bool, ghost n: nat, ghost tree: Tree, ghost rep: set<Row>)
    requires Sound(Snap(rep), root, tree) && n < |InOrder(tree)| && InOrder(tree)[n] == row
    modifies rep`height, rep`branchCount, rep`hidden
    ensures Marked(old(Snap(rep)), Snap(rep), row, hidden)
    ensures Sound(Snap(rep), root, tree)
  {
    ghost var h := Snap(rep);
    ghost var c, t := Find(h, root, tree, n);
    Local(h, root, c, t);
    row.hidden := hidden;
    ghost var m := Snap(rep);
    assert m == h[row := h[row].(hidden := hidden)];
    HiddenWalking(h, m, root, c, t, hidden);
    UpdateCounts(root, row, c, t, rep);
    ResizedMarked(h, m, Snap(rep), row, hidden);
  }

  // ---------- blocks with a common sort prefix ----------

  /** No row behind `n` and before `j` is beyond the prefix of the row at `n`. */
  ghost predicate InBlock(k: Collation, s: seq<Row>, n: nat, j: nat) {
    && n < j <= |s|
    && forall i :: n < i < j ==> !Less(k, s[n].cols, Prefix(|s[n].cols|, s[i].cols))
  }

  /** The block ends at `j`: the next row, if there is one, is beyond the prefix. */
  ghost predicate IsBlock(k: Collation, s: seq<Row>, n: nat, j: nat) {
    InBlock(k, s, n, j) && (j < |s| ==> Less(k, s[n].cols, Prefix(|s[n].cols|, s[j].cols)))
  }

  /** Past the first row behind the block, no row shares the prefix any more; before it, all do. */
  lemma PrefixBlock(k: Collation, layout: nat -> Flags, s: seq<Row>, n: nat, j: nat)
    requires Ordered(k, layout, s) && IsBlock(k, s, n, j)
    ensures forall i :: n < i < |s| ==> (SharesPrefix(k, s[n].cols, s[i].cols) <==> i < j)
  {
    var head := s[n].cols;
    forall i | n < i < |s|
      ensures SharesPrefix(k, head, s[i].cols) <==> i < j
    {
      PrefixBefore(k, head, s[i].cols);
      if i > j {
        PrefixMonotone(|head|, k, s[j].cols, s[i].cols);
        ConformsPrefix(layout, |head|, s[i].cols);
        ConformsPrefix(layout, |head|, s[j].cols);
        if !Less(k, head, Prefix(|head|, s[i].cols)) {
          NotLessTransitive(k, layout, head, Prefix(|head|, s[i].cols), Prefix(|head|, s[j].cols));
        }
      }
    }
  }

  /** In `g` the rows behind `n` and before `j` are hidden, all others as in `h`. */
  ghost predicate HiddenUpTo(h: Memory, g: Memory, s: seq<Row>, n: nat, j: nat) {
    forall i :: 0 <= i < |s| ==> Get(g, s[i]).hidden == (n < i < j || Get(h, s[i]).hidden)
  }

  /** Rows of the block behind `n` with as many columns as its first row. */
  ghost predicate Unfolded(s: seq<Row>, n: nat, j: nat, i: nat)
    requires n < j <= |s| && i < |s|
  {
    n < i < j && |s[i].cols| == |s[n + 1].cols|
  }

  /** In `g` those rows are visible, all others as in `h`. */
  ghost predicate ShownUpTo(h: Memory, g: Memory, s: seq<Row>, n: nat, j: nat)
    requires n < j <= |s|
  {
    forall i :: 0 <= i < |s| ==> Get(g, s[i]).hidden == (Get(h, s[i]).hidden && !Unfolded(s, n, j, i))
  }

  /** Marking the row at `j` touches no other position. */
  lemma MarkedAt(root: Row, tree: Tree, h: Memory, g: Memory, j: nat, hidden: bool)
    requires Sound(h, root, tree) && j < |InOrder(tree)| && Marked(h, g, InOrder(tree)[j], hidden)
    ensures forall i :: 0 <= i < |InOrder(tree)| ==>
      Get(g, InOrder(tree)[i]).hidden == if i == j then hidden else Get(h, InOrder(tree)[i]).hidden
    ensures Get(g, root).hidden == Get(h, root).hidden
  {
    var s := InOrder(tree);
    DistinctNoDup(tree);
    InOrderRows(tree);
    forall i | 0 <= i < |s| ensures s[i] in h && s[i] != root && (i != j ==> s[i] != s[j]) {
      assert s[i] in (set r | r in s);
    }
  }

  lemma KeysStep(s: seq<Row>, n: nat, j: nat)
    requires n <= j < |s|
    ensures s[n..j + 1] == s[n..j] + [s[j]] && Keys(s[n..j + 1]) == Keys(s[n..j]) + [s[j].key]
  {
    assert s[n..j + 1][..j - n] == s[n..j];
  }

  /** The keys behind `n` and before `j`, as the loop collects them. */
  ghost function KeysBehind(s: seq<Row>, n: nat, j: nat): seq<Key>
    requires n < j <= |s|
    decreases j
  {
    if j == n + 1 then [] else KeysBehind(s, n, j - 1) + [s[j - 1].key]
  }

  ghost predicate Meets(s: seq<Row>, n: nat, j: nat, cursor: Row?)
    requires n < j <= |s|
    decreases j
  {
    j > n + 1 && (Meets(s, n, j - 1, cursor) || s[j - 1] == cursor)
  }

  /** What the hiding loop has gathered before position `j`. */
  ghost predicate Gathered(s: seq<Row>, n: nat, j: nat, cursor: Row?, list: seq<Key>, met: bool) {
    n < j <= |s| && list == KeysBehind(s, n, j) && (met <==> Meets(s, n, j, cursor))
  }

  lemma BehindStep(s: seq<Row>, n: nat, j: nat, cursor: Row?, list: seq<Key>, met: bool)
    requires n < j < |s| && Gathered(s, n, j, cursor, list, met)
    ensures Gathered(s, n, j + 1, cursor, list + [s[j].key], met || s[j] == cursor)
  {
  }

  lemma {:induction false} KeysBehindSlice(s: seq<Row>, n: nat, j: nat)
    requires n < j <= |s|
    ensures KeysBehind(s, n, j) == Keys(s[n + 1..j])
    decreases j
  {
    if j > n + 1 {
      KeysBehindSlice(s, n, j - 1);
      KeysStep(s, n + 1, j - 1);
    }
  }

  lemma {:induction false} MeetsSlice(s: seq<Row>, n: nat, j: nat, cursor: Row?)
    requires n < j <= |s|
    ensures Meets(s, n, j, cursor) <==> exists i :: n < i < j && s[i] == cursor
    decreases j
  {
    if j > n + 1 {
      MeetsSlice(s, n, j - 1, cursor);
      assert s[j - 1] == cursor ==> exists i :: n < i < j && s[i] == cursor;
    }
  }

  lemma InSlice(s: seq<Row>, n: nat, j: nat, cursor: Row?)
    requires n < j <= |s|
    ensures (exists i :: n < i < j && s[i] == cursor) <==> cursor in s[n + 1..j]
  {
    if i :| n < i < j && s[i] == cursor {
      assert s[n + 1..j][i - n - 1] == cursor;
    }
  }

  lemma GatheredSlice(s: seq<Row>, n: nat, j: nat, cursor: Row?, list: seq<Key>, met: bool)
    requires Gathered(s, n, j, cursor, list, met)
    ensures list == Keys(s[n + 1..j]) && (met <==> cursor in s[n + 1..j])
  {
    KeysBehindSlice(s, n, j);
    MeetsSlice(s, n, j, cursor);
    InSlice(s, n, j, cursor);
  }

  /** Where the hiding loop stands: at the row with position `j`, all before it done. */
  ghost predicate HidingAt(k: Collation, root: Row, tree: Tree, h: Memory, g: Memory, n: nat, j: nat, cur: Row?) {
    && Sound(g, root, tree) && InBlock(k, InOrder(tree), n, j) && HiddenUpTo(h, g, InOrder(tree), n, j)
    && Get(g, root).hidden == Get(h, root).hidden && cur == if j < |InOrder(tree)| then InOrder(tree)[j] else null
  }

  /** One round of the hiding loop, on the row at `j`. */
  method HideOne(
    k: Collation, root: Row, row: Row, ghost h: Memory, ghost n: nat, ghost j: nat, ghost tree: Tree,
    ghost rep: set<Row>)
    returns (next: Row?)
    requires HidingAt(k, root, tree, h, Snap(rep), n, j, row)
    requires !Less(k, InOrder(tree)[n].cols, Prefix(|InOrder(tree)[n].cols|, row.cols))
    modifies rep`height, rep`branchCount, rep`hidden
    ensures HidingAt(k, root, tree, h, Snap(rep), n, j + 1, next)
  {
    ghost var g := Snap(rep);
    MarkHidden(root, row, true, j, tree, rep);
    MarkedAt(root, tree, g, Snap(rep), j, true);
    next := Successor(root, row, j, tree, rep);
  }

  /** The hiding loop and what it gathers stand at position `j`. */
  ghost predicate HidingStands(
    k: Collation, root: Row, tree: Tree, h: Memory, g: Memory, n: nat, j: nat, cur: Row?, cursor: Row?,
    list: seq<Key>, met: bool) {
    HidingAt(k, root, tree, h, g, n, j, cur) && Gathered(InOrder(tree), n, j, cursor, list, met)
  }

  /** A row beyond the prefix of the row at `n`. */
  ghost predicate Beyond(k: Collation, s: seq<Row>, n: nat, row: Row)
    requires n < |s|
  {
    Less(k, s[n].cols, Prefix(|s[n].cols|, row.cols))
  }

  /** One round of the loop; it stops at a row beyond the prefix. */
  method HideRound(k: Collation, root: Row, head: Row, row: Row, cursor: Row?, list: seq<Key>, met: bool,
    ghost h: Memory, ghost n: nat, ghost j: nat, ghost tree: Tree, ghost rep: set<Row>)
    returns (stop: bool, next: Row?, more: seq<Key>, now: bool)
    requires n < |InOrder(tree)| && InOrder(tree)[n] == head
    requires HidingStands(k, root, tree, h, Snap(rep), n, j, row, cursor, list, met)
    modifies rep`height, rep`branchCount, rep`hidden
    ensures HidingStands(k, root, tree, h, Snap(rep), n, if stop then j else j + 1, next, cursor, more, now)
    ensures stop ==> next == row && Beyond(k, InOrder(tree), n, row)
    ensures j < |InOrder(tree)|
  {
    stop := RowComparePrefix(|head.cols|, k, head.cols, row.cols);
    next, more, now := row, list, met;
    if !stop {
      BehindStep(InOrder(tree), n, j, cursor, list, met);
      more := list + [row.key];
      now := met || row == cursor;
      next := HideOne(k, root, row, h, n, j, tree, rep);
    }
  }

  lemma HidingDone(
    k: Collation, root: Row, tree: Tree, h: Memory, g: Memory, n: nat, j: nat, cur: Row?, cursor: Row?,
    list: seq<Key>, met: bool)
    requires HidingStands(k, root, tree, h, g, n, j, cur, cursor, list, met)
    requires n < |InOrder(tree)| && (cur != null ==> Beyond(k, InOrder(tree), n, cur))
    ensures IsBlock(k, InOrder(tree), n, j) && list == Keys(InOrder(tree)[n + 1..j])
    ensures (met <==> cursor in InOrder(tree)[n + 1..j])
  {
    GatheredSlice(InOrder(tree), n, j, cursor, list, met);
  }

  /** The hiding loop: every row behind `head` that shares its prefix; tells whether it met `cursor`. */
  method HideBlock(
    k: Collation, root: Row, head: Row, cursor: Row?, ghost n: nat, ghost tree: Tree, ghost rep: set<Row>)
    returns (list: seq<Key>, end: Row?, met: bool, ghost j: nat)
    requires Sound(Snap(rep), root, tree)
    requires n < |InOrder(tree)| && InOrder(tree)[n] == head
    modifies rep`height, rep`branchCount, rep`hidden
    ensures HidingAt(k, root, tree, old(Snap(rep)), Snap(rep), n, j, end) && IsBlock(k, InOrder(tree), n, j)
    ensures list == Keys(InOrder(tree)[n + 1..j]) && (met <==> cursor in InOrder(tree)[n + 1..j])
  {
    ghost var h := Snap(rep);
    var stop := false;
    list, met, j := [], false, n + 1;
    end := Successor(root, head, n, tree, rep);
    while end != null && !stop
      invariant HidingStands(k, root, tree, h, Snap(rep), n, j, end, cursor, list, met)
      invariant stop ==> end != null && Beyond(k, InOrder(tree), n, end)
      decreases |InOrder(tree)| - j, !stop
    {
      stop, end, list, met := HideRound(k, root, head, end, cursor, list, met, h, n, j, tree, rep);
      j := if stop then j else j + 1;
    }
    HidingDone(k, root, tree, h, Snap(rep), n, j, end, cursor, list, met);
  }

  /** Skips hidden rows: the first visible row at or behind position `j`. */
  method SkipHidden(root: Row, start: Row?, ghost j: nat, ghost tree: Tree, ghost rep: set<Row>)
    returns (row: Row?, ghost m: nat)
    requires Sound(Snap(rep), root, tree) && j <= |InOrder(tree)| &&
      start == if j < |InOrder(tree)| then InOrder(tree)[j] else null
    ensures j <= m <= |InOrder(tree)| && row == if m < |InOrder(tree)| then InOrder(tree)[m] else null
    ensures forall i :: j <= i < m ==> Get(Snap(rep), InOrder(tree)[i]).hidden
    ensures row != null ==> !Get(Snap(rep), row).hidden
  {
    ghost var h, s := Snap(rep), InOrder(tree);
    RowsKnown(h, root, tree);
    row, m := start, j;
    while row != null && row.hidden
      invariant j <= m <= |s| && row == if m < |s| then s[m] else null
      invariant forall i :: j <= i < m ==> Get(h, s[i]).hidden
      decreases |s| - m
    {
      assert CellOf(row) == h[row];
      row := Successor(root, row, m, tree, rep);
      m := m + 1;
    }
    if row != null {
      assert CellOf(row) == h[row];
    }
  }

  /** The keys of the unfolded rows, in order. */
  ghost function UnfoldedKeys(s: seq<Row>, n: nat, j: nat): seq<Key>
    requires n < j <= |s|
    decreases j
  {
    if j == n + 1 then []
    else UnfoldedKeys(s, n, j - 1) + if |s[j - 1].cols| == |s[n + 1].cols| then [s[j - 1].key] else []
  }

  /** Where the unhiding loop stands. */
  ghost predicate ShowingAt(k: Collation, root: Row, tree: Tree, h: Memory, g: Memory, n: nat, j: nat, cur: Row?) {
    && Sound(g, root, tree) && InBlock(k, InOrder(tree), n, j) && ShownUpTo(h, g, InOrder(tree), n, j)
    && Get(g, root).hidden == Get(h, root).hidden && cur == if j < |InOrder(tree)| then InOrder(tree)[j] else null
  }

  /** One round of the unhiding loop on the row at `j`. */
  method UnhideOne(
    k: Collation, root: Row, row: Row, first: Row, ghost h: Memory, ghost n: nat, ghost j: nat, ghost tree: Tree,
    ghost rep: set<Row>)
    returns (next: Row?)
    requires ShowingAt(k, root, tree, h, Snap(rep), n, j, row) && InOrder(tree)[n + 1] == first
    requires !Less(k, InOrder(tree)[n].cols, Prefix(|InOrder(tree)[n].cols|, row.cols))
    modifies rep`height, rep`branchCount, rep`hidden
    ensures ShowingAt(k, root, tree, h, Snap(rep), n, j + 1, next)
  {
    if |row.cols| == |first.cols| {
      ghost var g := Snap(rep);
      MarkHidden(root, row, false, j, tree, rep);
      MarkedAt(root, tree, g, Snap(rep), j, false);
    }
    next := Successor(root, row, j, tree, rep);
  }

  /** The unhiding loop. */
  method UnhideBlock(
    k: Collation, root: Row, head: Row, first: Row, ghost n: nat, ghost tree: Tree, ghost rep: set<Row>)
    returns (list: seq<Key>, end: Row?, ghost j: nat)
    requires Sound(Snap(rep), root, tree)
    requires n + 1 < |InOrder(tree)| && InOrder(tree)[n] == head && InOrder(tree)[n + 1] == first
    modifies rep`height, rep`branchCount, rep`hidden
    ensures ShowingAt(k, root, tree, old(Snap(rep)), Snap(rep), n, j, end) && IsBlock(k, InOrder(tree), n, j)
    ensures list == UnfoldedKeys(InOrder(tree), n, j)
  {
    ghost var h, s := Snap(rep), InOrder(tree);
    list, end, j := [], first, n + 1;
    while end != null
      invariant ShowingAt(k, root, tree, h, Snap(rep), n, j, end)
      invariant list == UnfoldedKeys(s, n, j)
      decreases |s| - j
    {
      var beyond := RowComparePrefix(|head.cols|, k, head.cols, end.cols);
      if beyond {
        break;
      }
      if |end.cols| == |first.cols| {
        list := list + [end.key];
      }
      end := UnhideOne(k, root, end, first, h, n, j, tree, rep);
      j := j + 1;
    }
  }

  /** The rows read so far, from position `n` up to `j`. */
  ghost predicate BlockRead(k: Collation, s: seq<Row>, n: nat, j: nat, list: seq<Key>) {
    n <= j <= |s| && (j > n ==> InBlock(k, s, n, j)) && list == Keys(s[n..j])
  }

  lemma BlockReadStep(k: Collation, s: seq<Row>, n: nat, j: nat, list: seq<Key>)
    requires BlockRead(k, s, n, j, list) && j < |s| && !Less(k, s[n].cols, Prefix(|s[n].cols|, s[j].cols))
    ensures BlockRead(k, s, n, j + 1, list + [s[j].key])
  {
    KeysStep(s, n, j);
  }

  /** The reading loop: `head` itself and every later row that shares its prefix. */
  method ReadBlock(k: Collation, root: Row, head: Row, ghost n: nat, ghost tree: Tree, ghost rep: set<Row>)
    returns (list: seq<Key>, ghost j: nat)
    requires Sound(Snap(rep), root, tree)
    requires n < |InOrder(tree)| && InOrder(tree)[n] == head && !Less(k, head.cols, Prefix(|head.cols|, head.cols))
    ensures IsBlock(k, InOrder(tree), n, j) && list == Keys(InOrder(tree)[n..j])
  {
    ghost var s := InOrder(tree);
    var cur: Row? := head;
    list, j := [], n;
    while cur != null
      invariant BlockRead(k, s, n, j, list) && cur == if j < |s| then s[j] else null
      decreases |s| - j
    {
      var beyond := RowComparePrefix(|head.cols|, k, head.cols, cur.cols);
      if beyond {
        break;
      }
      BlockReadStep(k, s, n, j, list);
      list := list + [cur.key];
      cur := Successor(root, cur, j, tree, rep);
      j := j + 1;
    }
  }

  lemma LessIrreflexive(k: Collation, layout: nat -> Flags, a: seq<Column>)
    requires Lawful(k) && Conforms(layout, a)
    ensures !Less(k, a, Prefix(|a|, a))
  {
    if Less(k, a, a) {
      LessAsymmetric(k, layout, a, a);
    }
  }

  // ---------- clearing ----------

  ghost function Size(t: Tree): nat {
    match t
    case Nil => 0
    case Node(l, _, r) => 1 + Size(l) + Size(r)
  }

  lemma {:induction false} ZipSize(c: Ctx, t: Tree, u: Tree)
    ensures Size(Zip(c, t)) - Size(t) == Size(Zip(c, u)) - Size(u)
    decreases c
  {
    match c
    case Top =>
    case InLeft(r, rt, up) => ZipSize(up, Node(t, r, rt), Node(u, r, rt));
    case InRight(l, r, up) => ZipSize(up, Node(l, r, t), Node(l, r, u));
  }

  /** What is left while rows are being freed: a linked tree among the old rows. */
  ghost predicate Freeing(h: Memory, root: Row, cur: Row, c: Ctx, t: Tree) {
    && Apart(c, t, root) && Sentinel(h, root) && Placed(h, c, t, root) && Everyone(root, c, t) <= h.Keys
    && if cur == root then c.Top? else t.Node? && cur == t.row
  }

  /** One leaf is decoupled; the walk goes on from its parent. */
  lemma FreeStep(h: Memory, g: Memory, root: Row, c: Ctx, t: Tree)
    requires t.Node? && t.left.Nil? && t.right.Nil? && t.row != root && Freeing(h, root, t.row, c, t)
    requires Spliced(h, g, Owner(c, root), c.InLeft?, null)
    ensures Freeing(g, root, Owner(c, root), UpCtx(c), UpTree(c, Nil))
    ensures Size(Zip(UpCtx(c), UpTree(c, Nil))) < Size(Zip(c, t))
  {
    SplicedPlaced(h, g, root, c, t, Nil);
    ZipSize(c, t, Nil);
    SplicedKeeps(h, g, root, Owner(c, root), c.InLeft?, null);
    if !c.Top? {
      Counting.Climb(g, root, c, Nil);
    }
  }

  lemma FreeDown(h: Memory, root: Row, cur: Row, c: Ctx, t: Tree)
    requires Freeing(h, root, cur, c, t)
    ensures cur in h
    ensures cur != root ==> h[cur].left == Apex(t.left) && h[cur].right == Apex(t.right) &&
                            h[cur].parent == Owner(c, root) && h[cur].fLeft == c.InLeft?
    ensures cur != root && t.left.Node? ==> Freeing(h, root, t.left.row, InLeft(t.row, t.right, c), t.left)
    ensures cur != root && t.right.Node? ==> Freeing(h, root, t.right.row, InRight(t.left, t.row, c), t.right)
    ensures cur == root ==>
      h[root].left == null && h[root].right == Apex(t) && (t.Node? ==> Freeing(h, root, t.row, c, t))
  {
    if cur != root {
      Counting.Climb(h, root, InLeft(t.row, t.right, c), t.left);
      Counting.Climb(h, root, InRight(t.left, t.row, c), t.right);
    }
  }

  /** Frees every row, leaves first, until the sentinel has no child. */
  method FreeAll(root: Row, ghost tree: Tree, ghost rep: set<Row>)
    requires Sound(Snap(rep), root, tree)
    modifies rep`left, rep`right
    ensures Sentinel(Snap(rep), root) && root.right == null
  {
    ghost var d, u := Top, tree;
    var cur: Row := root;
    while true
      invariant Freeing(Snap(rep), root, cur, d, u)
      decreases Size(Zip(d, u)), if cur == root then 1 + Size(u) else Size(u)
    {
      ghost var h := Snap(rep);
      FreeDown(h, root, cur, d, u);
      assert CellOf(cur) == h[cur];
      if cur.left != null {
        cur := cur.left;
        d, u := InLeft(u.row, u.right, d), u.left;
      } else if cur.right != null {
        if cur != root {
          d, u := InRight(u.left, u.row, d), u.right;
        }
        cur := cur.right;
      } else if cur == root {
        break;
      } else {
        var parent := cur.parent;
        assert Owner(d, root) in h by { RootKnown(h, d, root, cur); }
        SetChild(parent, cur.fLeft, null, rep);
        FreeStep(h, Snap(rep), root, d, u);
        cur := parent;
        d, u := UpCtx(d), UpTree(d, Nil);
      }
    }
    assert CellOf(root) == Snap(rep)[root];
  }
}
