/** Reads towards the front of the table.  They stop at the top row of the tree, or behind the sentinel. */
module BackwardReads {
  import opened Bytes
  import opened RowTree
  import opened Memory
  import opened Navigation
  import opened RankSelect
  import opened Editing

  /** The row at a position; the sentinel is in front of the first row, and nothing in front of the sentinel. */
  ghost function RowAt(root: Row, s: seq<Row>, i: int): Row?
    requires i < |s|
  {
    if i < -1 then null else if i == -1 then root else s[i]
  }

  /** The row in front of another one. */
  method Prior(root: Row, row: Row, ghost i: int, ghost tree: Tree, ghost rep: set<Row>) returns (prev: Row?)
    requires Sound(Snap(rep), root, tree)
    requires -1 <= i < |InOrder(tree)| && row == RowAt(root, InOrder(tree), i)
    ensures prev == RowAt(root, InOrder(tree), i - 1)
  {
    ghost var h := Snap(rep);
    ghost var c, t := Top, tree;
    if i >= 0 {
      c, t := Find(h, root, tree, i);
      Local(h, root, c, t);
      ZipInOrder(c, t);
    }
    assert CellOf(row) == h[row];
    if row.left != null {
      prev := Rightmost(root, row.left, InLeft(t.row, t.right, c), t.left, rep);
    } else if row.fLeft {
      prev := ClimbLeft(root, row, c, t, rep);
    } else {
      prev := row.parent;
    }
  }

  /** The ids of the rows at positions from `i` down to `j`, all of them or the visible ones. */
  ghost function Back(h: Memory, root: Row, s: seq<Row>, i: int, j: int, showHidden: bool): seq<Key>
    requires -1 <= j && i < |s|
    decreases i - j
  {
    if i < j then [] else
      Back(h, root, s, i, j + 1, showHidden) +
      if showHidden || !Get(h, RowAt(root, s, j)).hidden then [RowAt(root, s, j).key] else []
  }

  ghost function Reversed<T>(s: seq<T>): (r: seq<T>)
    ensures |r| == |s|
  {
    if s == [] then [] else Reversed(s[1..]) + [s[0]]
  }

  /** Rows of the table are listed in the reverse of the order of a forward read. */
  lemma {:induction false} BackIsReversed(h: Memory, root: Row, s: seq<Row>, i: int, j: nat, showHidden: bool)
    requires j - 1 <= i < |s|
    ensures Back(h, root, s, i, j, showHidden) == Reversed(Keys(Listed(h, s[j..i + 1], showHidden)))
    decreases i - j
  {
    if j <= i {
      BackIsReversed(h, root, s, i, j + 1, showHidden);
      var rest := Listed(h, s[j + 1..i + 1], showHidden);
      assert s[j..i + 1] == [s[j]] + s[j + 1..i + 1];
      ShownConcat(h, [s[j]], s[j + 1..i + 1]);
      assert Shown(h, [s[j]]) == if Get(h, s[j]).hidden then [] else [s[j]];
      if showHidden || !Get(h, s[j]).hidden {
        assert Listed(h, s[j..i + 1], showHidden) == [s[j]] + rest;
        ReversedMore(s[j], rest);
      } else {
        assert Listed(h, s[j..i + 1], showHidden) == rest;
      }
    } else {
      assert s[j..i + 1] == [];
    }
  }

  lemma ReversedMore(row: Row, rest: seq<Row>)
    ensures Reversed(Keys([row] + rest)) == Reversed(Keys(rest)) + [row.key]
  {
    KeysAt(rest);
    KeysAt([row] + rest);
    assert Keys([row] + rest) == [row.key] + Keys(rest);
    assert ([row.key] + Keys(rest))[1..] == Keys(rest);
  }

  lemma {:induction false} BackSplit(h: Memory, root: Row, s: seq<Row>, i: int, m: int, j: int, showHidden: bool)
    requires -1 <= j <= m <= i + 1 && i < |s|
    ensures Back(h, root, s, i, j, showHidden)
         == Back(h, root, s, i, m, showHidden) + Back(h, root, s, m - 1, j, showHidden)
    decreases m - j
  {
    if j < m {
      BackSplit(h, root, s, i, m, j + 1, showHidden);
    }
  }

  /** Where a read from position `i` ends if enough is asked for: at the top row, if that is in front, or behind all. */
  ghost function StopAt(tree: Tree, i: int): int {
    if tree.Node? && |InOrder(tree.left)| <= i then |InOrder(tree.left)| else -1
  }

  ghost function First<T>(s: seq<T>, n: nat): seq<T> {
    if n <= |s| then s[..n] else s
  }

  /** What a read from position `i` down to `j` has listed, with `left` more to come. */
  ghost predicate BackListing(
    h: Memory, root: Row, s: seq<Row>, showHidden: bool, i: int, j: int, keys: seq<Key>, rows: nat, left: nat) {
    -1 <= j <= i + 1 <= |s| && keys == Back(h, root, s, i, j, showHidden) && |keys| + left == rows
  }

  /** Where the cursor is after a read down to position `j`. */
  ghost function LeftAt(root: Row, tree: Tree, i: int, j: int): Row?
    requires -1 <= j <= i + 1 <= |InOrder(tree)|
  {
    if j <= i && j == StopAt(tree, i) && j >= 0 then InOrder(tree)[j] else RowAt(root, InOrder(tree), j - 1)
  }

  lemma TopRow(h: Memory, root: Row, tree: Tree, j: int)
    requires Sound(h, root, tree) && -1 <= j < |InOrder(tree)|
    ensures h[root].right == RowAt(root, InOrder(tree), j) <==> tree.Node? && j == |InOrder(tree.left)|
  {
    DistinctNoDup(tree);
    RowsKnown(h, root, tree);
    if tree.Node? {
      PosAt(Top, tree);
    }
  }

  /** The read ends right behind the last row that is wanted, or at its stop. */
  ghost predicate BackEnds(h: Memory, root: Row, tree: Tree, rows: nat, showHidden: bool, i: int, j: int)
    requires -1 <= i < |InOrder(tree)|
  {
    && StopAt(tree, i) <= j <= i + 1
    && (j == StopAt(tree, i) || |Back(h, root, InOrder(tree), i, j, showHidden)| == rows)
    && (j <= i ==> |Back(h, root, InOrder(tree), i, j + 1, showHidden)| < rows)
  }

  /** The read stands behind position `j`, and has not gone on in vain. */
  ghost predicate BackStands(
    h: Memory, root: Row, tree: Tree, showHidden: bool, i: int, j: int, keys: seq<Key>, rows: nat, left: nat) {
    && StopAt(tree, i) <= j && BackListing(h, root, InOrder(tree), showHidden, i, j, keys, rows, left)
    && (j <= i ==> |Back(h, root, InOrder(tree), i, j + 1, showHidden)| < rows)
  }

  lemma BackStep(
    h: Memory, root: Row, tree: Tree, showHidden: bool, i: int, j: int, keys: seq<Key>, rows: nat, left: nat)
    requires BackStands(h, root, tree, showHidden, i, j, keys, rows, left) && left > 0 && StopAt(tree, i) < j
    ensures var row := RowAt(root, InOrder(tree), j - 1);
      if Get(h, row).hidden && !showHidden then BackStands(h, root, tree, showHidden, i, j - 1, keys, rows, left)
      else BackStands(h, root, tree, showHidden, i, j - 1, keys + [row.key], rows, left - 1)
  {
  }

  lemma BackDone(
    h: Memory, root: Row, tree: Tree, showHidden: bool, i: int, j: int, keys: seq<Key>, rows: nat, left: nat)
    requires BackStands(h, root, tree, showHidden, i, j, keys, rows, left) && (left == 0 || j == StopAt(tree, i))
    requires i >= -1
    ensures keys == First(Back(h, root, InOrder(tree), i, StopAt(tree, i), showHidden), rows)
    ensures BackEnds(h, root, tree, rows, showHidden, i, j)
  {
    BackSplit(h, root, InOrder(tree), i, j, StopAt(tree, i), showHidden);
  }

  /** One round of the loop, on the row in front of position `j`; the top row ends it. */
  method BackOne(
    root: Row, row: Row, showHidden: bool, list: seq<Key>, left: nat, ghost rows: nat, ghost i: int, ghost j: int,
    ghost tree: Tree, ghost rep: set<Row>)
    returns (over: bool, keys: seq<Key>, rest: nat)
    requires Sound(Snap(rep), root, tree) && StopAt(tree, i) < j && left > 0
    requires BackStands(Snap(rep), root, tree, showHidden, i, j, list, rows, left)
    requires row == RowAt(root, InOrder(tree), j - 1)
    ensures BackStands(Snap(rep), root, tree, showHidden, i, j - 1, keys, rows, rest)
    ensures over <==> j >= 1 && j - 1 == StopAt(tree, i)
  {
    ghost var h := Snap(rep);
    RowsKnown(h, root, tree);
    assert CellOf(root) == h[root] && CellOf(row) == h[row];
    TopRow(h, root, tree, j - 1);
    BackStep(h, root, tree, showHidden, i, j, list, rows, left);
    keys, rest := list, left;
    if !row.hidden || showHidden {
      keys, rest := keys + [row.key], rest - 1;
    }
    over := row == root.right;
  }

  /** The loop of a backward read from position `i`. */
  method CollectBack(
    root: Row, start: Row, rows: nat, showHidden: bool, ghost i: int, ghost tree: Tree, ghost rep: set<Row>)
    returns (keys: seq<Key>, next: Row?, ghost j: int)
    requires Sound(Snap(rep), root, tree)
    requires -1 <= i < |InOrder(tree)| && start == RowAt(root, InOrder(tree), i)
    ensures -1 <= j <= i + 1 && next == LeftAt(root, tree, i, j)
    ensures keys == First(Back(Snap(rep), root, InOrder(tree), i, StopAt(tree, i), showHidden), rows)
    ensures BackEnds(Snap(rep), root, tree, rows, showHidden, i, j)
  {
    var left, over := rows, false;
    keys, next, j := [], start, i + 1;
    while left > 0 && next != null && !over
      invariant BackStands(Snap(rep), root, tree, showHidden, i, j, keys, rows, left)
      invariant over ==> 0 <= j <= i && j == StopAt(tree, i) && next == InOrder(tree)[j]
      invariant !over ==> (j > i || j != StopAt(tree, i) || j == -1) && next == RowAt(root, InOrder(tree), j - 1)
      decreases j
    {
      over, keys, left := BackOne(root, next, showHidden, keys, left, rows, i, j, tree, rep);
      j := j - 1;
      if !over {
        next := Prior(root, next, j, tree, rep);
      }
    }
    BackDone(Snap(rep), root, tree, showHidden, i, j, keys, rows, left);
  }

  /** Where a read starts: at the cursor, the last row from behind the table, or the first from before it. */
  ghost predicate StartsBack(h: Memory, root: Row, tree: Tree, cursor: Row?, start: Row?) {
    var s := InOrder(tree);
    var count := |Shown(h, s)|;
    if count == 0 && (cursor == null || cursor == root) then start == root
    else if cursor == null then start != root && IsNumber(h, root, s, start, Clamp(ToInt32(count - 1), count))
    else if cursor == root then start != root && IsNumber(h, root, s, start, 0)
    else start == cursor
  }

  /** The ids are those from position `i` towards the front; `j` is the last position read. */
  ghost predicate ReadsBack(
    h: Memory, root: Row, tree: Tree, start: Row, rows: nat, showHidden: bool, keys: seq<Key>, i: int, j: int) {
    && -1 <= i < |InOrder(tree)| && start == RowAt(root, InOrder(tree), i) && -1 <= j <= i + 1
    && var want := Wanted(h, InOrder(tree), rows);
    && keys == First(Back(h, root, InOrder(tree), i, StopAt(tree, i), showHidden), want)
    && BackEnds(h, root, tree, want, showHidden, i, j)
  }

  // ---------- what a backward read should give ----------

  lemma FirstSame<T>(a: seq<T>, b: seq<T>, n: nat)
    ensures First(a, n) == First(a + b, n) <==> n <= |a| || b == []
  {
    if n > |a| && b != [] {
      assert |First(a + b, n)| > |a|;
    } else if n > |a| {
      assert a + b == a;
    } else {
      assert (a + b)[..n] == a[..n];
    }
  }

  /**
   A backward read should give the ids in front of the cursor up to the first row.  With the
   top row in front of the cursor it does so just when the rows up to the top one are enough,
   or nothing is to be listed in front of that; otherwise, just when no more is asked for than
   there is, as the sentinel is listed too.
   */
  lemma BackwardExact(h: Memory, root: Row, tree: Tree, i: nat, rows: nat, showHidden: bool)
    requires i < |InOrder(tree)| && !Get(h, root).hidden
    ensures var s, top := InOrder(tree), |InOrder(tree.left)|;
      First(Back(h, root, s, i, StopAt(tree, i), showHidden), rows) == First(Back(h, root, s, i, 0, showHidden), rows)
      <==> if top <= i
           then rows <= |Back(h, root, s, i, top, showHidden)| || Back(h, root, s, top - 1, 0, showHidden) == []
           else rows <= |Back(h, root, s, i, 0, showHidden)|
  {
    var s, top := InOrder(tree), |InOrder(tree.left)|;
    if top <= i {
      BackSplit(h, root, s, i, top, 0, showHidden);
      FirstSame(Back(h, root, s, i, top, showHidden), Back(h, root, s, top - 1, 0, showHidden), rows);
    } else {
      FirstSame(Back(h, root, s, i, 0, showHidden), [root.key], rows);
    }
  }

  /** Two rows, the second one on top: a read from it misses the first, and one from the first finds the sentinel. */
  lemma TopStopsRead(h: Memory, root: Row, a: Row, b: Row)
    requires !Get(h, root).hidden && !Get(h, a).hidden && !Get(h, b).hidden
    ensures var tree := Node(Node(Nil, a, Nil), b, Nil); var s := InOrder(tree);
      && s == [a, b]
      && First(Back(h, root, s, 1, StopAt(tree, 1), false), 2) == [b.key]
      && First(Back(h, root, s, 1, 0, false), 2) == [b.key, a.key]
      && First(Back(h, root, s, 0, StopAt(tree, 0), false), 2) == [a.key, root.key]
  {
    var tree := Node(Node(Nil, a, Nil), b, Nil);
    var s := InOrder(tree);
    assert InOrder(tree.left) == [a] && s == [a, b];
    assert Back(h, root, s, 1, 1, false) == [b.key];
    assert Back(h, root, s, 1, 0, false) == [b.key] + [a.key];
    assert Back(h, root, s, 0, 0, false) == [a.key];
    assert Back(h, root, s, 0, -1, false) == [a.key] + [root.key];
  }

  lemma FirstTogether<T>(s: seq<T>, m: nat, t: seq<T>, n: nat)
    ensures |s| == m ==> First(s + t, m) == s && s + First(t, n) == First(s + t, m + n)
  {
  }

  /**
   A read that stopped because there was enough leaves the cursor in front of the last row it
   listed, and the next read goes on from there: both together list what one read would.
   */
  lemma BackContinues(h: Memory, root: Row, tree: Tree, showHidden: bool, i: int, j: int, a: nat, b: nat)
    requires Sound(h, root, tree) && 0 <= i < |InOrder(tree)| && a > 0
    requires BackEnds(h, root, tree, a, showHidden, i, j) && StopAt(tree, i) < j
    ensures 0 <= j <= i && LeftAt(root, tree, i, j) == RowAt(root, InOrder(tree), j - 1)
    ensures var s := InOrder(tree);
      First(Back(h, root, s, i, StopAt(tree, i), showHidden), a)
        + First(Back(h, root, s, j - 1, StopAt(tree, j - 1), showHidden), b)
      == First(Back(h, root, s, i, StopAt(tree, i), showHidden), a + b)
  {
    var s, stop := InOrder(tree), StopAt(tree, i);
    assert Back(h, root, s, i, i + 1, showHidden) == [];
    assert StopAt(tree, j - 1) == stop;
    BackSplit(h, root, s, i, j, stop, showHidden);
    FirstTogether(Back(h, root, s, i, j, showHidden), a, Back(h, root, s, j - 1, stop, showHidden), b);
  }
}
