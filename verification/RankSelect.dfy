/** Row numbers: from a row to its number by climbing, from a number to a row by descending. */
module RankSelect {
  import opened RowTree
  import opened Memory
  import opened Counting
  import opened Navigation

  /** A row that has been taken out of the tree but still points into it. */
  ghost predicate Detached(row: Row, rep: set<Row>)
    reads row
  {
    row !in rep && row.parent in rep && (row.left == null || row.left in rep)
  }

  /**
   Climbing from the subtree `t` adds the visible rows before it to `start`.  A detached
   row stands for a subtree of its former parent; then nothing is promised about the number.
   */
  method Climb(root: Row, row: Row, start: int, ghost c: Ctx, ghost t: Tree, ghost rep: set<Row>) returns (number: int)
    requires Sound(Snap(rep), root, Zip(c, t))
    requires if row in rep then t.Node? && t.row == row else row.parent == Owner(c, root)
    ensures row in rep ==> number == start + |Shown(Snap(rep), Before(c))|
  {
    ghost var h := Snap(rep);
    ghost var d, u := c, t;
    var cur: Row := row;
    number := start;
    if cur in rep {
      Local(h, root, d, u);
      assert CellOf(cur) == h[cur];
    }
    if !c.Top? {
      Local(h, root, c.up, Wrap(c, t));
    }
    while cur.parent != null && cur.parent != root
      invariant Zip(d, u) == Zip(c, t) && cur.parent == Owner(d, root) && (!d.Top? ==> d.row != root)
      invariant if cur in rep then u.Node? && u.row == cur && CellOf(cur) == h[cur] else cur == row && d == c && u == t
      invariant row in rep ==> cur in rep && number + |Shown(h, Before(d))| == start + |Shown(h, Before(c))|
      decreases d
    {
      ghost var v := Wrap(d, u);
      Local(h, root, d.up, v);
      assert CellOf(d.row) == h[d.row];
      if cur in rep {
        Local(h, root, d, u);
        BeforeStep(h, d, u);
      }
      if !cur.fLeft {
        number := number + cur.parent.branchCount - cur.branchCount;
      }
      cur := cur.parent;
      d, u := d.up, v;
    }
  }

  lemma BeforeStep(h: Memory, c: Ctx, t: Tree)
    requires !c.Top?
    ensures |Shown(h, Before(c))| ==
      |Shown(h, Before(c.up))| + if c.InLeft? then 0 else Count(h, Wrap(c, t)) - Count(h, t)
  {
    if c.InRight? {
      ShownConcat(h, Before(c.up) + InOrder(c.left), [c.row]);
      ShownConcat(h, Before(c.up), InOrder(c.left));
      CountIsShown(h, c.left);
    }
  }

  /** Number of the row at position `i`, or of the sentinel, or of the end (null). */
  ghost predicate IsNumber(h: Memory, root: Row, s: seq<Row>, row: Row?, number: int) {
    && (row == null ==> number == |Shown(h, s)|)
    && (row == root ==> number == 0)
    && (forall i :: 0 <= i < |s| && s[i] == row ==> number == Rank(h, s, i))
  }

  method CurrentRow(root: Row, row: Row?, ghost tree: Tree, ghost rep: set<Row>) returns (number: int)
    requires Sound(Snap(rep), root, tree)
    requires row != null && row !in rep ==> Detached(row, rep)
    ensures IsNumber(Snap(rep), root, InOrder(tree), row, number)
  {
    ghost var h, s := Snap(rep), InOrder(tree);
    InOrderRows(tree);
    assert forall i :: 0 <= i < |s| ==> s[i] in (set r | r in s) && s[i] in Rows(tree);
    assert CellOf(root) == h[root];
    if row == null {
      CountIsShown(h, tree);
      return root.branchCount;
    }
    if row == root {
      return 0;
    }
    var start := 0;
    if row.left != null {
      start := row.left.branchCount;
    }
    ghost var c, t := Place(root, row, tree, rep);
    if row in rep {
      Local(h, root, c, t);
      assert CellOf(row) == h[row];
      assert row.left != null ==> CellOf(row.left) == h[row.left];
      RankAt(h, c, t);
      forall i | 0 <= i < |s| && s[i] == row ensures i == Pos(c, t) { PosUnique(root, h, c, t, i); }
    }
    number := Climb(root, row, start, c, t, rep);
  }

  /** Where the climb from a live or detached row starts. */
  lemma Place(root: Row, row: Row, tree: Tree, rep: set<Row>) returns (c: Ctx, t: Tree)
    requires Sound(Snap(rep), root, tree) && row != root
    requires row !in rep ==> Detached(row, rep)
    ensures Zip(c, t) == tree
    ensures if row in rep then t.Node? && t.row == row else row.parent == Owner(c, root)
  {
    assert Snap(rep).Keys == rep;
    if row in rep {
      var z := Locate(Top, tree, row);
      c, t := z.0, z.1;
    } else if row.parent == root {
      c, t := Top, tree;
    } else {
      var z := Locate(Top, tree, row.parent);
      c, t := InLeft(z.1.row, z.1.right, z.0), z.1.left;
    }
  }

  // ---------- select ----------

  /** The descent is looking for number `k` inside `t`, for `dest` in the whole table. */
  ghost predicate Seeking(h: Memory, c: Ctx, t: Tree, k: int, dest: int, total: int) {
    k >= 0 &&
    if dest < total then k < Count(h, t) && |Shown(h, Before(c))| + k == dest
    else k > Count(h, t) || (k == Count(h, t) && |Shown(h, Before(c))| + k == dest)
  }

  lemma SeekLeft(h: Memory, c: Ctx, t: Tree, k: int, dest: int, total: int)
    requires t.Node? && Seeking(h, c, t, k, dest, total) && k != Count(h, t.left)
    requires t.right.Nil? || k < Count(h, t.left)
    ensures Seeking(h, InLeft(t.row, t.right, c), t.left, k, dest, total)
  {
    assert t.right.Nil? ==> Count(h, t.right) == 0;
  }

  lemma SeekRight(h: Memory, c: Ctx, t: Tree, k: int, dest: int, total: int)
    requires t.Node? && Seeking(h, c, t, k, dest, total) && Count(h, t.left) < k
    ensures Seeking(h, InRight(t.left, t.row, c), t.right, k - Count(h, t.left) - Weight(h, t.row), dest, total)
  {
    BeforeStep(h, InRight(t.left, t.row, c), t.right);
  }

  /** The descent has come to `cur`, the root of `t`, and looks for row number `k` there. */
  ghost predicate Descending(h: Memory, tree: Tree, c: Ctx, t: Tree, cur: Row, k: int, dest: int, total: int) {
    Zip(c, t) == tree && t.Node? && t.row == cur && Seeking(h, c, t, k, dest, total)
  }

  /** One round of the descent: the row is found, the table ends, or a child is next. */
  method SelectOne(
    root: Row, cur: Row, k: int, dest: int, ghost c: Ctx, ghost t: Tree, ghost tree: Tree, ghost rep: set<Row>,
    ghost total: int)
    returns (found: bool, next: Row?, rest: int, ghost d: Ctx, ghost u: Tree)
    requires Sound(Snap(rep), root, tree) && total == |Shown(Snap(rep), InOrder(tree))| && 0 <= dest <= total
    requires Descending(Snap(rep), tree, c, t, cur, k, dest, total)
    ensures found ==> |Shown(Snap(rep), Before(c))| + Count(Snap(rep), t.left) == dest
    ensures !found && next == null ==> dest == total
    ensures !found && next != null ==> Descending(Snap(rep), tree, d, u, next, rest, dest, total) && u < t
  {
    ghost var h := Snap(rep);
    Local(h, root, c, t);
    assert CellOf(cur) == h[cur];
    assert cur.left != null ==> CellOf(cur.left) == h[cur.left];
    found, next, rest, d, u := false, null, k, c, t;
    if (cur.left == null && k == 0) || (cur.left != null && cur.left.branchCount == k) {
      found := true;
    } else if cur.left == null && cur.right == null {
      next := null;
    } else if cur.left != null && cur.right == null {
      SeekLeft(h, c, t, k, dest, total);
      next, d, u := cur.left, InLeft(t.row, t.right, c), t.left;
    } else if cur.left == null {
      SeekRight(h, c, t, k, dest, total);
      rest := k - if cur.hidden then 0 else 1;
      next, d, u := cur.right, InRight(t.left, t.row, c), t.right;
    } else if cur.left.branchCount < k {
      SeekRight(h, c, t, k, dest, total);
      rest := k - (cur.left.branchCount + if cur.hidden then 0 else 1);
      next, d, u := cur.right, InRight(t.left, t.row, c), t.right;
    } else {
      SeekLeft(h, c, t, k, dest, total);
      next, d, u := cur.left, InLeft(t.row, t.right, c), t.left;
    }
  }

  /** The descent by row number: the row found has number `dest`, or `dest` is the end. */
  method Select(root: Row, dest: int, ghost tree: Tree, ghost rep: set<Row>) returns (row: Row?, ghost i: nat)
    requires Sound(Snap(rep), root, tree) && tree.Node? && 0 <= dest <= |Shown(Snap(rep), InOrder(tree))|
    ensures row == null ==> dest == |Shown(Snap(rep), InOrder(tree))|
    ensures row != null ==> i < |InOrder(tree)| && row == InOrder(tree)[i] && Rank(Snap(rep), InOrder(tree), i) == dest
  {
    ghost var h, total := Snap(rep), |Shown(Snap(rep), InOrder(tree))|;
    ghost var d, u := Top, tree;
    CountIsShown(h, tree);
    assert CellOf(root) == h[root];
    var cur: Row := root.right;
    var k := dest;
    while true
      invariant Descending(h, tree, d, u, cur, k, dest, total)
      decreases u
    {
      ghost var c, t := d, u;
      var found, next;
      found, next, k, d, u := SelectOne(root, cur, k, dest, c, t, tree, rep, total);
      if found {
        RankAt(h, c, t);
        PosAt(c, t);
        return cur, Pos(c, t);
      }
      if next == null {
        return null, 0;
      }
      cur := next;
    }
  }

  /** What `Select` finds has the number it was asked for. */
  lemma Selected(h: Memory, root: Row, tree: Tree, row: Row?, i: nat, dest: nat)
    requires Sound(h, root, tree)
    requires row == null ==> dest == |Shown(h, InOrder(tree))|
    requires row != null ==> i < |InOrder(tree)| && row == InOrder(tree)[i] && Rank(h, InOrder(tree), i) == dest
    ensures IsNumber(h, root, InOrder(tree), row, dest) && (row == null || (row in h && row != root))
  {
    InOrderRows(tree);
    DistinctNoDup(tree);
    if row != null {
      assert row in (set r | r in InOrder(tree)) && row in Rows(tree);
    }
  }

  /** With no visible row, the place before the first row has number 0. */
  lemma NothingToSelect(h: Memory, root: Row, tree: Tree)
    requires Sound(h, root, tree) && Shown(h, InOrder(tree)) == []
    ensures IsNumber(h, root, InOrder(tree), root, 0) && root in h
  {
    RowsKnown(h, root, tree);
  }

  /** A row number cut to the table. */
  function Clamp(x: int, count: nat): nat {
    if x < 0 then 0 else if x >= count then count else x
  }

  /** A row number is cut to the nearest one in the table. */
  lemma ClampNearest(x: int, count: nat, y: nat)
    requires y <= count
    ensures Clamp(x, count) <= count
    ensures (if x < Clamp(x, count) then Clamp(x, count) - x else x - Clamp(x, count)) <= if x < y then y - x else x - y
  {
  }

  // ---------- forward reads ----------

  ghost function Keys(s: seq<Row>): (keys: seq<Key>)
    ensures |keys| == |s|
  {
    if s == [] then [] else Keys(s[..|s| - 1]) + [s[|s| - 1].key]
  }

  /** The rows a read returns: all of them, or the visible ones. */
  ghost function Listed(h: Memory, s: seq<Row>, showHidden: bool): seq<Row> {
    if showHidden then s else Shown(h, s)
  }

  lemma ListedStep(h: Memory, s: seq<Row>, i: nat, j: nat, showHidden: bool)
    requires i <= j < |s|
    ensures Listed(h, s[i..j + 1], showHidden)
         == Listed(h, s[i..j], showHidden) + if showHidden || !Get(h, s[j]).hidden then [s[j]] else []
    ensures Keys(Listed(h, s[i..j + 1], showHidden))
         == Keys(Listed(h, s[i..j], showHidden)) + if showHidden || !Get(h, s[j]).hidden then [s[j].key] else []
  {
    var a := s[i..j + 1];
    assert a[..|a| - 1] == s[i..j] && a[|a| - 1] == s[j];
    var l := Listed(h, a, showHidden);
    if showHidden || !Get(h, s[j]).hidden {
      assert l[..|l| - 1] == Listed(h, s[i..j], showHidden) && l[|l| - 1] == s[j];
    } else {
      assert l == Listed(h, s[i..j], showHidden);
    }
  }

  /** What a read from position `i` has listed up to `j`, with `left` more to come. */
  ghost predicate Listing(
    h: Memory, s: seq<Row>, showHidden: bool, i: nat, j: nat, keys: seq<Key>, rows: nat, left: nat) {
    i <= j <= |s| && keys == Keys(Listed(h, s[i..j], showHidden)) && |Listed(h, s[i..j], showHidden)| + left == rows
  }

  /** A read that has not gone on in vain: before the last row, more was to come. */
  ghost predicate ListingOn(
    h: Memory, s: seq<Row>, showHidden: bool, i: nat, j: nat, keys: seq<Key>, rows: nat, left: nat) {
    && Listing(h, s, showHidden, i, j, keys, rows, left)
    && (i < j ==> |Listed(h, s[i..j - 1], showHidden)| < rows)
  }

  lemma ListingStarts(h: Memory, s: seq<Row>, showHidden: bool, i: nat, rows: nat)
    requires i <= |s|
    ensures ListingOn(h, s, showHidden, i, i, [], rows, rows)
  {
    assert s[i..i] == [];
  }

  lemma ListingStep(h: Memory, s: seq<Row>, showHidden: bool, i: nat, j: nat, keys: seq<Key>, rows: nat, left: nat)
    requires Listing(h, s, showHidden, i, j, keys, rows, left) && j < |s| && left > 0
    ensures if showHidden || !Get(h, s[j]).hidden then
      Listing(h, s, showHidden, i, j + 1, keys + [s[j].key], rows, left - 1)
            else Listing(h, s, showHidden, i, j + 1, keys, rows, left)
  {
    ListedStep(h, s, i, j, showHidden);
  }

  /** One round of the reading loop, on the row at position `j`. */
  method CollectOne(root: Row, row: Row, showHidden: bool, list: seq<Key>, left: nat,
    ghost rows: nat, ghost i: nat, ghost j: nat, ghost tree: Tree, ghost rep: set<Row>)
    returns (next: Row?, keys: seq<Key>, rest: nat)
    requires Sound(Snap(rep), root, tree) && j < |InOrder(tree)| && InOrder(tree)[j] == row && left > 0
    requires ListingOn(Snap(rep), InOrder(tree), showHidden, i, j, list, rows, left)
    ensures ListingOn(Snap(rep), InOrder(tree), showHidden, i, j + 1, keys, rows, rest)
    ensures next == if j + 1 < |InOrder(tree)| then InOrder(tree)[j + 1] else null
  {
    ListingStep(Snap(rep), InOrder(tree), showHidden, i, j, list, rows, left);
    RowsKnown(Snap(rep), root, tree);
    assert CellOf(row) == Snap(rep)[row];
    keys, rest := list, left;
    if !row.hidden || showHidden {
      keys := keys + [row.key];
      rest := rest - 1;
    }
    next := Successor(root, row, j, tree, rep);
  }

  /** Reads up to `rows` keys from position `i` on; `j` is the position read up to. */
  method Collect(
    root: Row, start: Row?, rows: nat, showHidden: bool, ghost i: nat, ghost tree: Tree, ghost rep: set<Row>)
    returns (keys: seq<Key>, next: Row?, ghost j: nat)
    requires Sound(Snap(rep), root, tree)
    requires i <= |InOrder(tree)| && start == if i < |InOrder(tree)| then InOrder(tree)[i] else null
    ensures i <= j <= |InOrder(tree)| && next == if j < |InOrder(tree)| then InOrder(tree)[j] else null
    ensures keys == Keys(Listed(Snap(rep), InOrder(tree)[i..j], showHidden))
    ensures |Listed(Snap(rep), InOrder(tree)[i..j], showHidden)| <= rows
    ensures |Listed(Snap(rep), InOrder(tree)[i..j], showHidden)| == rows || j == |InOrder(tree)|
    ensures i < j ==> |Listed(Snap(rep), InOrder(tree)[i..j - 1], showHidden)| < rows
  {
    var left := rows;
    keys, next, j := [], start, i;
    ListingStarts(Snap(rep), InOrder(tree), showHidden, i, rows);
    while left > 0 && next != null
      invariant i <= j <= |InOrder(tree)| && next == if j < |InOrder(tree)| then InOrder(tree)[j] else null
      invariant ListingOn(Snap(rep), InOrder(tree), showHidden, i, j, keys, rows, left)
      decreases |InOrder(tree)| - j
    {
      next, keys, left := CollectOne(root, next, showHidden, keys, left, rows, i, j, tree, rep);
      j := j + 1;
    }
  }

  /** A read from a row with number `k` lists the visible rows from number `k` on. */
  lemma ReadsFromNumber(h: Memory, s: seq<Row>, i: nat, j: nat)
    requires i <= j <= |s|
    ensures var k, n := Rank(h, s, i), |Shown(h, s[i..j])|;
      k + n <= |Shown(h, s)| && Shown(h, s[i..j]) == Shown(h, s)[k..k + n] && (j == |s| ==> k + n == |Shown(h, s)|)
  {
    assert s == s[..i] + s[i..j] + s[j..];
    ShownConcat(h, s[..i] + s[i..j], s[j..]);
    ShownConcat(h, s[..i], s[i..j]);
  }

  lemma {:induction false} KeysAt(s: seq<Row>)
    ensures forall i :: 0 <= i < |s| ==> Keys(s)[i] == s[i].key
  {
    if s != [] {
      KeysAt(s[..|s| - 1]);
    }
  }

  lemma KeysSlice(s: seq<Row>, a: nat, b: nat)
    requires a <= b <= |s|
    ensures Keys(s[a..b]) == Keys(s)[a..b]
  {
    KeysAt(s);
    KeysAt(s[a..b]);
  }

  /** End of a read of `rows` visible rows that starts at number `k`. */
  ghost function ReadEnd(h: Memory, s: seq<Row>, k: nat, rows: nat): nat {
    if k + rows < |Shown(h, s)| then k + rows else |Shown(h, s)|
  }

  /** No read lists more than the number of visible rows, even when it lists hidden ones. */
  ghost function Wanted(h: Memory, s: seq<Row>, rows: nat): nat {
    if rows > |Shown(h, s)| then |Shown(h, s)| else rows
  }

  /**
   The ids read are those of the rows from position `i` up to `j`, as many as asked for and
   allowed, or to the end of the table, and `j` is right behind the last one wanted.  Without
   hidden rows they are those with row numbers from `k` on.
   */
  ghost predicate Reads(h: Memory, s: seq<Row>, rows: nat, showHidden: bool, keys: seq<Key>, k: nat, i: nat, j: nat) {
    && i <= j <= |s| && keys == Keys(Listed(h, s[i..j], showHidden))
    && |keys| <= Wanted(h, s, rows) && (|keys| == Wanted(h, s, rows) || j == |s|)
    && (i < j ==> |Listed(h, s[i..j - 1], showHidden)| < Wanted(h, s, rows))
    && k <= |Shown(h, s)| && (!showHidden ==> keys == Keys(Shown(h, s))[k..ReadEnd(h, s, k, rows)])
  }

  /** `n` visible rows from number `k` on, all that are wanted or all there are: the read ends where it should. */
  lemma EndOfRead(h: Memory, s: seq<Row>, k: nat, n: nat, rows: nat)
    requires k + n <= |Shown(h, s)| && n <= Wanted(h, s, rows)
    requires n == Wanted(h, s, rows) || k + n == |Shown(h, s)|
    ensures ReadEnd(h, s, k, rows) == k + n
  {
  }

  lemma VisibleReads(h: Memory, s: seq<Row>, rows: nat, i: nat, j: nat)
    requires i <= j <= |s| && |Shown(h, s[i..j])| <= Wanted(h, s, rows)
    requires |Shown(h, s[i..j])| == Wanted(h, s, rows) || j == |s|
    ensures Rank(h, s, i) <= ReadEnd(h, s, Rank(h, s, i), rows)
    ensures Keys(Shown(h, s[i..j])) == Keys(Shown(h, s))[Rank(h, s, i)..ReadEnd(h, s, Rank(h, s, i), rows)]
  {
    var k, n := Rank(h, s, i), |Shown(h, s[i..j])|;
    ReadsFromNumber(h, s, i, j);
    EndOfRead(h, s, k, n, rows);
    KeysSlice(Shown(h, s), k, k + n);
  }

  /** What `Collect` lists is such a read, even when it asks for no more than the visible rows. */
  lemma CollectReads(h: Memory, s: seq<Row>, rows: nat, showHidden: bool, i: nat, j: nat)
    requires i <= j <= |s| && |Listed(h, s[i..j], showHidden)| <= Wanted(h, s, rows)
    requires |Listed(h, s[i..j], showHidden)| == Wanted(h, s, rows) || j == |s|
    requires i < j ==> |Listed(h, s[i..j - 1], showHidden)| < Wanted(h, s, rows)
    ensures Reads(h, s, rows, showHidden, Keys(Listed(h, s[i..j], showHidden)), Rank(h, s, i), i, j)
  {
    ReadsFromNumber(h, s, i, j);
    if !showHidden {
      VisibleReads(h, s, rows, i, j);
    }
  }
}
