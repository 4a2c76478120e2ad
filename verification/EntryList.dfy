/**
 The key table as its callers know it: a list of entries in sort order.  What each change does
 to such a list is stated here, and the operations on the tree are connected to it.
 */
module EntryLists {
  import opened RowOrder
  import opened RowTree
  import opened Memory
  import opened Avl
  import opened Navigation
  import opened Search
  import opened RankSelect
  import opened Editing
  import opened Removal
  import opened Hiding

  datatype Status = Success | NotFound | InvalidBookmark | InvalidParameter | UnableToComplete | PositionChanged

  datatype Change = Add | Modify | Delete | Other

  datatype Action = NoAction | Added | Modified | Deleted

  datatype Entry = Entry(key: Key, cols: seq<Column>, hidden: bool)

  datatype Bookmark = Bookmark(firstRowPosition: int, position: Row?)

  const SEEK_SET := 0
  const SEEK_CUR := 1
  const SEEK_END := 2
  const BOOKMARK_LIMIT := 100
  const NO_KEY := Key(0, 0)

  /** The ids of the entries that are not hidden, in order. */
  ghost function VisibleOf(v: seq<Entry>): seq<Key> {
    if v == [] then []
    else
      var last := v[|v| - 1];
      VisibleOf(v[..|v| - 1]) + if last.hidden then [] else [last.key]
  }

  /** The rows that are shown are those of the entries that are not hidden. */
  lemma {:induction false} ShownAreVisible(h: Memory, s: seq<Row>)
    ensures Keys(Shown(h, s)) == VisibleOf(EntriesOf(h, s))
  {
    if s != [] {
      var n, v := |s| - 1, EntriesOf(h, s);
      ShownAreVisible(h, s[..n]);
      assert v[..n] == EntriesOf(h, s[..n]) && v[n] == Entry(s[n].key, s[n].cols, Get(h, s[n]).hidden);
      var shown, front := Shown(h, s), Shown(h, s[..n]);
      if Get(h, s[n]).hidden {
        assert shown == front && VisibleOf(v) == VisibleOf(v[..n]);
      } else {
        assert shown == front + [s[n]] && shown[..|shown| - 1] == front;
        assert Keys(shown) == Keys(front) + [s[n].key];
      }
    }
  }

  /** They are just those ids. */
  lemma {:induction false} VisibleMembers(v: seq<Entry>)
    ensures forall key :: key in VisibleOf(v) <==> exists i :: 0 <= i < |v| && v[i].key == key && !v[i].hidden
  {
    if v != [] {
      var n := |v| - 1;
      VisibleMembers(v[..n]);
      forall key ensures key in VisibleOf(v) <==> exists i :: 0 <= i < |v| && v[i].key == key && !v[i].hidden {
        if i :| 0 <= i < |v| && v[i].key == key && !v[i].hidden {
          assert i < n ==> v[..n][i] == v[i];
        }
        if i :| 0 <= i < n && v[..n][i].key == key && !v[..n][i].hidden {
          assert v[i].key == key;
        }
      }
    }
  }

  /** What callers see of some rows. */
  ghost function EntriesOf(h: Memory, s: seq<Row>): seq<Entry> {
    seq(|s|, i requires 0 <= i < |s| => Entry(s[i].key, s[i].cols, Get(h, s[i]).hidden))
  }

  lemma EntriesWithout(h: Memory, g: Memory, s: seq<Row>, n: nat)
    requires n < |s| && forall i :: 0 <= i < |s| && i != n ==> Get(h, s[i]).hidden == Get(g, s[i]).hidden
    ensures EntriesOf(g, s[..n] + s[n + 1..]) == EntriesOf(h, s)[..n] + EntriesOf(h, s)[n + 1..]
  {
  }

  /** Order and entries after a removal. */
  lemma AfterCut(k: Collation, layout: nat -> Flags, h: Memory, g: Memory, root: Row, tree: Tree, s: seq<Row>, n: nat)
    requires Sound(g, root, tree) && HiddenKept(g, h) && n < |s| && InOrder(tree) == s[..n] + s[n + 1..]
    requires Ordered(k, layout, s)
    ensures Ordered(k, layout, InOrder(tree))
    ensures EntriesOf(g, InOrder(tree)) == EntriesOf(h, s)[..n] + EntriesOf(h, s)[n + 1..]
  {
    OrderedWithout(k, layout, s, n);
    RowsKnown(g, root, tree);
    forall i | 0 <= i < |s| && i != n ensures s[i] in g {
      assert s[i] == InOrder(tree)[if i < n then i else i - 1];
    }
    EntriesWithout(h, g, s, n);
  }

  lemma EntriesWith(h: Memory, g: Memory, s: seq<Row>, n: nat, row: Row)
    requires n <= |s| && forall i :: 0 <= i < |s| ==> Get(h, s[i]).hidden == Get(g, s[i]).hidden
    ensures EntriesOf(g, s[..n] + [row] + s[n..])
         == EntriesOf(h, s)[..n] + [Entry(row.key, row.cols, Get(g, row).hidden)] + EntriesOf(h, s)[n..]
  {
  }

  lemma OrderedWithout(k: Collation, layout: nat -> Flags, s: seq<Row>, n: nat)
    requires Ordered(k, layout, s) && n < |s|
    ensures Ordered(k, layout, s[..n] + s[n + 1..])
  {
    var v := s[..n] + s[n + 1..];
    assert forall i :: 0 <= i < |v| ==> v[i] == s[if i < n then i else i + 1];
  }

  lemma OrderedWith(k: Collation, layout: nat -> Flags, s: seq<Row>, n: nat, row: Row)
    requires Ordered(k, layout, s) && IsSlot(k, s, row.cols, n) && Conforms(layout, row.cols) && !row.isRoot
    ensures Ordered(k, layout, s[..n] + [row] + s[n..])
  {
    var v := s[..n] + [row] + s[n..];
    assert forall i :: 0 <= i < |v| && i != n ==> v[i] == s[if i < n then i else i - 1];
    forall i, j | 0 <= i < j < |v| ensures !Less(k, v[j].cols, v[i].cols) {
      if i == n {
        LessAsymmetric(k, layout, row.cols, v[j].cols);
      }
    }
  }

  /** The id reported as the one in front of position `n`. */
  ghost function KeyInFront(v: seq<Entry>, n: nat): Key
    requires n <= |v|
  {
    if n == 0 then NO_KEY else v[n - 1].key
  }

  /** Order and entries after an insertion. */
  lemma AfterLink(
    k: Collation, layout: nat -> Flags, h: Memory, g: Memory, root: Row, tree: Tree, s: seq<Row>, n: nat, row: Row)
    requires Sound(g, root, tree) && Ordered(k, layout, s) && IsSlot(k, s, row.cols, n)
    requires InOrder(tree) == s[..n] + [row] + s[n..] && Conforms(layout, row.cols) && !row.isRoot
    requires HiddenKept(h, g) && forall i :: 0 <= i < |s| ==> s[i] in h
    ensures Ordered(k, layout, InOrder(tree))
    ensures EntriesOf(g, InOrder(tree)) ==
      EntriesOf(h, s)[..n] + [Entry(row.key, row.cols, Get(g, row).hidden)] + EntriesOf(h, s)[n..]
    ensures EntrySlot(k, EntriesOf(h, s), row.cols, n)
    ensures KeyInFront(EntriesOf(h, s), n) == if n == 0 then NO_KEY else s[n - 1].key
  {
    OrderedWith(k, layout, s, n, row);
    EntriesWith(h, g, s, n, row);
  }

  /** `Insert`, seen as an insertion into a list of entries. */
  method InsertEntry(
    k: Collation, root: Row, row: Row, ghost layout: nat -> Flags, ghost tree: Tree, ghost rep: set<Row>,
    ghost all: set<Row>)
    returns (prev: Key, ghost result: Tree, ghost n: nat)
    requires Sound(Snap(rep), root, tree) && Balanced(tree) && Ordered(k, layout, InOrder(tree))
    requires Conforms(layout, row.cols)
    requires root.isRoot && root.key == NO_KEY && all == rep + {row}
    requires !row.isRoot && row !in rep && row.left == null && row.right == null
    modifies all`parent, all`fLeft, all`left, all`right, all`height, all`branchCount
    ensures Sound(Snap(all), root, result) && Balanced(result) && Ordered(k, layout, InOrder(result))
    ensures EntrySlot(k, EntriesOf(old(Snap(rep)), InOrder(tree)), row.cols, n)
    ensures var v := EntriesOf(old(Snap(rep)), InOrder(tree));
      && EntriesOf(Snap(all), InOrder(result)) == v[..n] + [Entry(row.key, row.cols, row.hidden)] + v[n..]
      && prev == KeyInFront(v, n)
  {
    ghost var h, s := Snap(rep), InOrder(tree);
    RowsKnown(h, root, tree);
    prev, result, n := Insert(k, root, row, layout, tree, rep);
    AfterLink(k, layout, h, Snap(all), root, result, s, n, row);
  }

  /** `Remove`, seen as a removal from a list of entries. */
  method RemoveEntry(
    k: Collation, root: Row, row: Row, ghost n: nat, ghost layout: nat -> Flags, ghost tree: Tree,
    ghost rep: set<Row>, ghost less: set<Row>)
    returns (ghost result: Tree)
    requires Sound(Snap(rep), root, tree) && Balanced(tree) && Ordered(k, layout, InOrder(tree)) && less == rep - {row}
    requires n < |InOrder(tree)| && InOrder(tree)[n] == row
    requires forall r :: r in rep && r != root && r.key == row.key ==> r == row
    modifies rep`parent, rep`fLeft, rep`left, rep`right, rep`height, rep`branchCount
    ensures Sound(Snap(less), root, result) && Balanced(result) && Ordered(k, layout, InOrder(result))
    ensures InOrder(result) == InOrder(tree)[..n] + InOrder(tree)[n + 1..]
    ensures row.parent in less && (row.left == null || row.left in less)
    ensures var v := EntriesOf(old(Snap(rep)), InOrder(tree));
            EntriesOf(Snap(less), InOrder(result)) == v[..n] + v[n + 1..]
  {
    ghost var h, s := Snap(rep), InOrder(tree);
    result := Remove(root, row, n, tree, rep, less);
    AfterCut(k, layout, h, Snap(less), root, result, s, n);
  }

  /** The id in front of a row: the last one of its left subtree, or found by climbing. */
  method Predecessor(root: Row, row: Row, ghost n: nat, ghost tree: Tree, ghost rep: set<Row>) returns (prev: Key)
    requires Sound(Snap(rep), root, tree) && n < |InOrder(tree)| && InOrder(tree)[n] == row
    ensures prev == if n == 0 then root.key else InOrder(tree)[n - 1].key
  {
    ghost var h := Snap(rep);
    ghost var c, t := Find(h, root, tree, n);
    Local(h, root, c, t);
    ZipInOrder(c, t);
    assert CellOf(row) == h[row];
    if row.left != null {
      var last := Rightmost(root, row.left, InLeft(t.row, t.right, c), t.left, rep);
      prev := last.key;
    } else {
      var before := ClimbLeft(root, row, c, t, rep);
      prev := before.key;
    }
  }

  /** The entry list keeps its order, and every id occurs once. */
  ghost predicate SortedEntries(k: Collation, v: seq<Entry>) {
    && (forall i, j :: 0 <= i < j < |v| ==> !Less(k, v[j].cols, v[i].cols))
    && (forall i, j :: 0 <= i < j < |v| ==> v[i].key != v[j].key)
  }

  /** Position for a new entry: behind all that are not greater. */
  ghost predicate EntrySlot(k: Collation, v: seq<Entry>, cols: seq<Column>, n: nat) {
    && n <= |v|
    && (forall i :: 0 <= i < n ==> !Less(k, cols, v[i].cols))
    && (forall i :: n <= i < |v| ==> Less(k, cols, v[i].cols))
  }

  /** The index maps ids to rows, one to one and onto. */
  ghost predicate Indexes(m: map<Key, Row>, rows: set<Row>) {
    && (forall k :: k in m ==> m[k] in rows && m[k].key == k)
    && (forall r :: r in rows ==> r.key in m && m[r.key] == r)
  }

  lemma IndexesMore(m: map<Key, Row>, rows: set<Row>, more: set<Row>, row: Row)
    requires Indexes(m, rows) && row.key !in m && more == rows + {row}
    ensures Indexes(m[row.key := row], more)
  {
  }

  lemma IndexesLess(m: map<Key, Row>, rows: set<Row>, row: Row)
    requires Indexes(m, rows + {row}) && row !in rows
    ensures Indexes(m - {row.key}, rows)
  {
  }

  /** Two sort keys neither of which is before the other. */
  ghost predicate EqualOrder(k: Collation, a: seq<Column>, b: seq<Column>) {
    !Less(k, a, b) && !Less(k, b, a)
  }

  /** `w` is `v` with an entry behind all that are not greater; `prev` is the id in front of it. */
  ghost predicate Inserted(k: Collation, v: seq<Entry>, e: Entry, w: seq<Entry>, prev: Key) {
    exists n: nat :: EntrySlot(k, v, e.cols, n) && w == v[..n] + [e] + v[n..] && prev == KeyInFront(v, n)
  }

  /** What modifying the entry at `n` does: nothing if the sort keys are equal, or it moves. */
  ghost predicate Rewritten(k: Collation, v: seq<Entry>, n: nat, e: Entry, w: seq<Entry>, prev: Key) {
    && n < |v| && v[n].key == e.key
    && if EqualOrder(k, v[n].cols, e.cols) then w == v && prev == KeyInFront(v, n) else Reinserted(k, v, n, e, w, prev)
  }

  /** The entry at `n` goes, and a new one is inserted. */
  ghost predicate Reinserted(k: Collation, v: seq<Entry>, n: nat, e: Entry, w: seq<Entry>, prev: Key) {
    n < |v| && Inserted(k, v[..n] + v[n + 1..], e, w, prev)
  }

  /** Behind `n`, exactly the entries before `j` share the sort prefix of the entry at `n`. */
  ghost predicate EntryBlock(k: Collation, v: seq<Entry>, n: nat, j: nat) {
    && n < j <= |v|
    && forall i :: n < i < |v| ==> (SharesPrefix(k, v[n].cols, v[i].cols) <==> i < j)
  }

  ghost function EntryKeys(v: seq<Entry>): seq<Key> {
    seq(|v|, i requires 0 <= i < |v| => v[i].key)
  }

  /** The entries behind the one at `n` that share its prefix become hidden, and are listed. */
  ghost predicate BlockHidden(k: Collation, v: seq<Entry>, n: nat, j: nat, w: seq<Entry>, list: seq<Key>) {
    && EntryBlock(k, v, n, j) && |w| == |v| && list == EntryKeys(v[n + 1..j])
    && forall i :: 0 <= i < |v| ==> w[i] == v[i].(hidden := v[i].hidden || n < i < j)
  }

  lemma BlockOfEntries(k: Collation, layout: nat -> Flags, h: Memory, s: seq<Row>, n: nat, j: nat)
    requires Ordered(k, layout, s) && IsBlock(k, s, n, j)
    ensures EntryBlock(k, EntriesOf(h, s), n, j)
  {
    PrefixBlock(k, layout, s, n, j);
    var v := EntriesOf(h, s);
    assert forall i :: 0 <= i < |v| ==> v[i].cols == s[i].cols;
  }

  lemma KeysOfEntries(h: Memory, s: seq<Row>, a: nat, b: nat)
    requires a <= b <= |s|
    ensures EntryKeys(EntriesOf(h, s)[a..b]) == Keys(s[a..b])
  {
    KeysAt(s[a..b]);
  }

  lemma HidingEntries(k: Collation, layout: nat -> Flags, h: Memory, g: Memory, s: seq<Row>, n: nat, j: nat)
    requires Ordered(k, layout, s) && IsBlock(k, s, n, j) && HiddenUpTo(h, g, s, n, j)
    ensures BlockHidden(k, EntriesOf(h, s), n, j, EntriesOf(g, s), Keys(s[n + 1..j]))
  {
    BlockOfEntries(k, layout, h, s, n, j);
    KeysOfEntries(h, s, n + 1, j);
  }

  /** The keys of the entries with as many columns as the first one. */
  ghost function LayerKeys(v: seq<Entry>, layer: nat): seq<Key> {
    if v == [] then []
    else LayerKeys(v[..|v| - 1], layer) + if |v[|v| - 1].cols| == layer then [v[|v| - 1].key] else []
  }

  /** One layer of the entries behind `n` that share its prefix becomes visible, and is listed. */
  ghost predicate LayerShown(k: Collation, v: seq<Entry>, n: nat, j: nat, w: seq<Entry>, list: seq<Key>) {
    && n + 1 < |v| && EntryBlock(k, v, n, j) && |w| == |v|
    && list == LayerKeys(v[n + 1..j], |v[n + 1].cols|)
    && forall i :: 0 <= i < |v| ==>
      w[i] == v[i].(hidden := v[i].hidden && !(n < i < j && |v[i].cols| == |v[n + 1].cols|))
  }

  lemma {:induction false} LayerOfEntries(h: Memory, s: seq<Row>, n: nat, j: nat)
    requires n + 1 < |s| && n < j <= |s|
    ensures UnfoldedKeys(s, n, j) == LayerKeys(EntriesOf(h, s)[n + 1..j], |s[n + 1].cols|)
    decreases j
  {
    if j > n + 1 {
      LayerOfEntries(h, s, n, j - 1);
      var v := EntriesOf(h, s);
      assert v[n + 1..j][..j - n - 2] == v[n + 1..j - 1];
    }
  }

  lemma ShowingEntries(k: Collation, layout: nat -> Flags, h: Memory, g: Memory, s: seq<Row>, n: nat, j: nat)
    requires Ordered(k, layout, s) && n + 1 < |s| && IsBlock(k, s, n, j) && ShownUpTo(h, g, s, n, j)
    ensures LayerShown(k, EntriesOf(h, s), n, j, EntriesOf(g, s), UnfoldedKeys(s, n, j))
  {
    BlockOfEntries(k, layout, h, s, n, j);
    LayerOfEntries(h, s, n, j);
  }

  /** The first entry not before a sort key. */
  ghost predicate EntryBound(k: Collation, v: seq<Entry>, key: seq<Column>, n: nat) {
    && n <= |v|
    && (forall i :: 0 <= i < n ==> Less(k, v[i].cols, key))
    && (forall i :: n <= i < |v| ==> !Less(k, v[i].cols, key))
  }

  /** What adding or modifying id `e.key` does to a list of entries. */
  ghost predicate PutInto(k: Collation, v: seq<Entry>, e: Entry, w: seq<Entry>, prev: Key, action: Action) {
    if exists n :: 0 <= n < |v| && v[n].key == e.key then
      action == Modified && exists n: nat :: Rewritten(k, v, n, e, w, prev)
    else
      action == Added && Inserted(k, v, e, w, prev)
  }

  /** What deleting an id does to a list of entries. */
  ghost predicate DeletedFrom(v: seq<Entry>, key: Key, w: seq<Entry>, er: Status) {
    if exists n :: 0 <= n < |v| && v[n].key == key then
      er == Success && exists n: nat :: n < |v| && v[n].key == key && w == v[..n] + v[n + 1..]
    else
      er == NotFound && w == v
  }

  /** A sort key has one place in a list. */
  lemma OneSlot(k: Collation, v: seq<Entry>, cols: seq<Column>, m: nat, n: nat)
    requires EntrySlot(k, v, cols, m) && EntrySlot(k, v, cols, n)
    ensures m == n
  {
    assert m < |v| ==> Less(k, cols, v[m].cols);
    assert n < |v| ==> Less(k, cols, v[n].cols);
  }

  lemma InsertedOnce(k: Collation, v: seq<Entry>, e: Entry, w1: seq<Entry>, p1: Key, w2: seq<Entry>, p2: Key)
    requires Inserted(k, v, e, w1, p1) && Inserted(k, v, e, w2, p2)
    ensures w1 == w2 && p1 == p2
  {
    var m: nat :| EntrySlot(k, v, e.cols, m) && w1 == v[..m] + [e] + v[m..] && p1 == KeyInFront(v, m);
    var n: nat :| EntrySlot(k, v, e.cols, n) && w2 == v[..n] + [e] + v[n..] && p2 == KeyInFront(v, n);
    OneSlot(k, v, e.cols, m, n);
  }

  /** What an update of one id leaves is determined by the list before it. */
  lemma PutDetermined(
    k: Collation, v: seq<Entry>, e: Entry, w1: seq<Entry>, p1: Key, a1: Action, w2: seq<Entry>, p2: Key, a2: Action)
    requires SortedEntries(k, v) && PutInto(k, v, e, w1, p1, a1) && PutInto(k, v, e, w2, p2, a2)
    ensures w1 == w2 && p1 == p2 && a1 == a2
  {
    if exists i :: 0 <= i < |v| && v[i].key == e.key {
      var i: nat :| Rewritten(k, v, i, e, w1, p1);
      var j: nat :| Rewritten(k, v, j, e, w2, p2);
      assert i == j;
      if !EqualOrder(k, v[i].cols, e.cols) {
        InsertedOnce(k, v[..i] + v[i + 1..], e, w1, p1, w2, p2);
      }
    } else {
      InsertedOnce(k, v, e, w1, p1, w2, p2);
    }
  }

  /** Deleting an id that was just added gives the list back. */
  lemma AddThenDelete(k: Collation, v: seq<Entry>, e: Entry, w: seq<Entry>, prev: Key, x: seq<Entry>, er: Status)
    requires SortedEntries(k, w) && PutInto(k, v, e, w, prev, Added) && DeletedFrom(w, e.key, x, er)
    ensures er == Success && x == v
  {
    var n: nat :| EntrySlot(k, v, e.cols, n) && w == v[..n] + [e] + v[n..];
    TakenBack(v, e, n);
    var m: nat :| m < |w| && w[m].key == e.key && x == w[..m] + w[m + 1..];
    assert m == n;
  }

  lemma TakenBack(v: seq<Entry>, e: Entry, n: nat)
    requires n <= |v|
    ensures var w := v[..n] + [e] + v[n..]; n < |w| && w[n] == e && w[..n] + w[n + 1..] == v
  {
  }

  /** The entry at `n` has the id `key`, and `prev` is the id in front of it, or that of no row. */
  ghost predicate Follows(w: seq<Entry>, key: Key, n: nat, prev: Key) {
    n < |w| && w[n].key == key && prev == if n == 0 then Key(0, 0) else w[n - 1].key
  }

  /** The id reported with an update is that of the entry in front of the updated one. */
  lemma PreviousIsInFront(k: Collation, v: seq<Entry>, e: Entry, w: seq<Entry>, prev: Key, action: Action)
    requires SortedEntries(k, w) && PutInto(k, v, e, w, prev, action)
    ensures exists n: nat :: Follows(w, e.key, n, prev)
  {
    if exists i :: 0 <= i < |v| && v[i].key == e.key {
      var i: nat :| Rewritten(k, v, i, e, w, prev);
      if EqualOrder(k, v[i].cols, e.cols) {
        assert Follows(w, e.key, i, prev);
      } else {
        InsertedFront(k, v[..i] + v[i + 1..], e, w, prev);
      }
    } else {
      InsertedFront(k, v, e, w, prev);
    }
  }

  lemma InsertedFront(k: Collation, v: seq<Entry>, e: Entry, w: seq<Entry>, prev: Key)
    requires Inserted(k, v, e, w, prev)
    ensures exists n: nat :: Follows(w, e.key, n, prev)
  {
    var n: nat :| EntrySlot(k, v, e.cols, n) && w == v[..n] + [e] + v[n..] && prev == KeyInFront(v, n);
    assert w[n] == e && (n > 0 ==> w[n - 1] == v[n - 1]);
    assert Follows(w, e.key, n, prev);
  }
}
