/**
 The key table: rows kept in sort order in a balanced tree, with a cursor, bookmarks and
 an index from row ids to rows.  To its callers it is a list of entries (`View`).
 */
module KeyTables {
  import opened Bytes
  import opened RowOrder
  import opened RowTree
  import opened Memory
  import opened Avl
  import opened Navigation
  import opened Search
  import opened RankSelect
  import opened BackwardReads
  import opened Hiding
  import opened EntryLists

  class KeyTable {
    const collation: Collation
    ghost const layout: nat -> Flags
    const root: Row
    var current: Row?
    var mapRow: map<Key, Row>
    var bookmarks: map<nat, Bookmark>
    var nextBookmark: nat
    ghost var tree: Tree
    ghost var rep: set<Row>

    /** The rows form a sound, balanced, ordered tree under the sentinel. */
    ghost predicate Shape()
      reads this`tree, this`rep, rep
    {
      && Sound(Snap(rep), root, tree) && Balanced(tree)
      && Ordered(collation, layout, InOrder(tree))
      && root.isRoot && root.key == NO_KEY && root.cols == [] && !root.hidden
    }

    ghost predicate Indexed()
      reads this`tree, this`mapRow
    {
      Indexes(mapRow, Rows(tree))
    }

    /** A row of the table, the sentinel (before the first row), or null (after the last). */
    ghost predicate Live(r: Row?)
      reads this`rep
    {
      r == null || r in rep
    }

    ghost predicate Marks()
      reads this`bookmarks, this`nextBookmark, this`rep
    {
      && nextBookmark >= 3
      && forall b :: b in bookmarks ==> 3 <= b < nextBookmark && Live(bookmarks[b].position)
    }

    ghost predicate Valid()
      reads this, rep
    {
      Shape() && Indexed() && Live(current) && Marks()
    }

    ghost function Order(): seq<Row>
      reads this`tree
    {
      InOrder(tree)
    }

    /** The table as its callers know it. */
    ghost function View(): seq<Entry>
      reads this`tree, this`rep, rep
    {
      EntriesOf(Snap(rep), InOrder(tree))
    }

    /** The number of visible rows. */
    ghost function VisibleCount(): nat
      reads this`tree, this`rep, rep
    {
      |Shown(Snap(rep), InOrder(tree))|
    }

    /** Row number of a position: visible rows before it. */
    ghost predicate HasNumber(row: Row?, number: int)
      reads this`tree, this`rep, rep
    {
      IsNumber(Snap(rep), root, InOrder(tree), row, number)
    }

    constructor (collation: Collation, ghost layout: nat -> Flags)
      requires Lawful(collation)
      ensures Valid() && fresh(rep) && View() == [] && current == root && bookmarks == map[]
      ensures this.collation == collation && this.layout == layout
    {
      this.collation := collation;
      this.layout := layout;
      root := new Row(NO_KEY, [], true, false);
      current := root;
      mapRow, bookmarks, nextBookmark := map[], map[], 3;
      tree := Nil;
      rep := {root};
      new;
      assert CellOf(root) == Snap(rep)[root];
    }

    /** Moves the cursor to the row with the given id. */
    method SeekId(key: Key) returns (er: Status, ghost n: nat)
      requires Valid()
      modifies this`current
      ensures Valid()
      ensures er == (if exists i :: 0 <= i < |View()| && View()[i].key == key then Success else NotFound)
      ensures er == Success ==> n < |Order()| && View()[n].key == key && current == Order()[n] && !current.isRoot
      ensures er != Success ==> current == old(current)
    {
      n := 0;
      if key !in mapRow {
        Absent(key);
        return NotFound, n;
      }
      n := Position(mapRow[key]);
      current := mapRow[key];
      er := Success;
      assert View()[n].key == key;
    }

    lemma Absent(key: Key)
      requires Valid() && key !in mapRow
      ensures forall i :: 0 <= i < |View()| ==> View()[i].key != key
    {
      RowsKnown(Snap(rep), root, tree);
    }

    lemma RepIsTree()
      requires Shape()
      ensures rep == {root} + Rows(tree) && root !in Rows(tree)
    {
      assert Snap(rep).Keys == rep;
    }

    /** The position of an indexed row. */
    lemma Position(row: Row) returns (n: nat)
      requires Shape() && row in Rows(tree)
      ensures n < |Order()| && Order()[n] == row && View()[n].key == row.key && row in rep && !row.isRoot
    {
      InOrderRows(tree);
      assert row in (set r | r in InOrder(tree));
      n :| n < |InOrder(tree)| && InOrder(tree)[n] == row;
    }

    /** As long as the rows stay as they are, so does the table. */
    twostate lemma Still()
      requires tree == old(tree) && rep == old(rep) && unchanged(rep)
      ensures Shape() == old(Shape()) && View() == old(View())
    {
    }

    // ---------- row numbers ----------

    /** Number of visible rows, and the number of the cursor. */
    method GetRowCount() returns (count: nat, number: int)
      requires Shape() && (current == null || current in rep || Detached(current, rep))
      ensures count == VisibleCount() && HasNumber(current, number)
    {
      number := CurrentRow(root, current, tree, rep);
      CountIsShown(Snap(rep), tree);
      assert CellOf(root) == Snap(rep)[root];
      count := root.branchCount;
    }

    /** The present number of a bookmarked row; tells when it has moved. */
    method GetBookmark(mark: nat) returns (er: Status, position: int)
      requires Shape() && Marks()
      ensures er == InvalidBookmark <==> mark !in bookmarks
      ensures mark in bookmarks ==> HasNumber(bookmarks[mark].position, position)
      ensures mark in bookmarks ==>
        er == if position == bookmarks[mark].firstRowPosition then Success else PositionChanged
    {
      if mark !in bookmarks {
        return InvalidBookmark, 0;
      }
      position := CurrentRow(root, bookmarks[mark].position, tree, rep);
      er := if bookmarks[mark].firstRowPosition != position then PositionChanged else Success;
    }

    /** The number a seek aims at, before it is cut to the table. */
    ghost predicate Aims(origin: nat, seek: int, count: nat, number: int, aim: int)
      reads this`tree, this`rep, this`bookmarks, rep
    {
      if origin == SEEK_SET then aim == seek
      else if origin == SEEK_CUR then aim == ToInt32(number + seek)
      else if origin == SEEK_END then aim == ToInt32(count + seek)
      else origin in bookmarks && exists p :: HasNumber(bookmarks[origin].position, p) && aim == ToInt32(p + seek)
    }

    /** Without an overflow, a seek aims at the sum of the place it counts from and the offset. */
    lemma AimsMean(origin: nat, seek: int, count: nat, number: int, aim: int)
      requires Aims(origin, seek, count, number, aim)
      ensures origin == SEEK_SET ==> aim == seek
      ensures origin == SEEK_CUR && -0x8000_0000 <= number + seek < 0x8000_0000 ==> aim - number == seek
      ensures origin == SEEK_END && -0x8000_0000 <= count + seek < 0x8000_0000 ==> aim - count == seek
      ensures origin > SEEK_END ==>
        origin in bookmarks && exists p :: AimsFrom(bookmarks[origin].position, seek, aim, p)
    {
      if origin > SEEK_END {
        var p :| HasNumber(bookmarks[origin].position, p) && aim == ToInt32(p + seek);
        assert AimsFrom(bookmarks[origin].position, seek, aim, p);
      }
    }

    /** The aim is `seek` behind a position with number `p`. */
    ghost predicate AimsFrom(position: Row?, seek: int, aim: int, p: int)
      reads this`tree, this`rep, rep
    {
      HasNumber(position, p) && (-0x8000_0000 <= p + seek < 0x8000_0000 ==> aim - p == seek)
    }

    /** The status of a seek: a bookmark must be known, and it is told when it has moved. */
    ghost predicate SeekStatus(origin: nat, er: Status)
      reads this`tree, this`rep, this`bookmarks, rep
    {
      if origin <= SEEK_END then er == Success
      else if origin !in bookmarks then er == InvalidBookmark
      else
        exists p :: HasNumber(bookmarks[origin].position, p) &&
          er == if p == bookmarks[origin].firstRowPosition then Success else PositionChanged
    }

    /** The switch on the origin of a seek. */
    method Aim(origin: nat, seek: int, count: nat, number: int) returns (er: Status, aim: int)
      requires Shape() && Marks()
      ensures SeekStatus(origin, er)
      ensures er != InvalidBookmark ==> Aims(origin, seek, count, number, aim)
    {
      if origin == SEEK_SET {
        return Success, seek;
      }
      if origin == SEEK_CUR {
        return Success, ToInt32(number + seek);
      }
      if origin == SEEK_END {
        return Success, ToInt32(count + seek);
      }
      var position;
      er, position := GetBookmark(origin);
      if er == InvalidBookmark {
        return er, 0;
      }
      aim := ToInt32(position + seek);
    }

    /**
     Moves the cursor to a row number, counted from the start, the cursor, the end or a
     bookmark.  `sought` is the distance moved from there, or from the cursor for a bookmark.
     */
    method SeekRow(origin: nat, seek: int) returns (er: Status, sought: int, ghost start: int, ghost aim: int)
      requires Shape() && Marks() && (current == null || current in rep || Detached(current, rep))
      modifies this`current
      ensures SeekStatus(origin, er)
      ensures er == InvalidBookmark ==> current == old(current)
      ensures HasNumber(old(current), start)
      ensures er != InvalidBookmark ==> Aims(origin, seek, VisibleCount(), start, aim)
      ensures er != InvalidBookmark ==> SoughtTo(Clamp(aim, VisibleCount()))
      ensures er != InvalidBookmark ==>
        sought == Clamp(aim, VisibleCount()) -
          (if origin == SEEK_SET then 0 else if origin == SEEK_END then VisibleCount() else start)
      ensures er != InvalidBookmark && aim < 0 ==> SoughtTo(0)
      ensures er != InvalidBookmark && 0 <= aim <= VisibleCount() ==> SoughtTo(aim)
      ensures er != InvalidBookmark && aim > VisibleCount() ==> SoughtTo(VisibleCount())
    {
      var count, number := GetRowCount();
      start := number;
      var dest;
      er, dest := Aim(origin, seek, count, number);
      aim, sought := dest, 0;
      if er != InvalidBookmark {
        dest := Land(dest, count);
        sought := dest - if origin == SEEK_SET then 0 else if origin == SEEK_END then count else number;
      }
    }

    /** Cuts a row number to the table and goes there. */
    method Land(aim: int, count: nat) returns (dest: nat)
      requires Shape() && count == VisibleCount()
      modifies this`current
      ensures dest == Clamp(aim, VisibleCount()) && SoughtTo(dest)
    {
      dest := if aim < 0 then 0 else aim;
      if dest >= count {
        dest := count;
      }
      Goto(dest, count);
    }

    /** The cursor is on a row with a number, or at the end; before the first row just if no row is visible. */
    ghost predicate SoughtTo(number: nat)
      reads this`tree, this`rep, this`current, rep
    {
      Live(current) && HasNumber(current, number) && (VisibleCount() == 0 <==> current == root)
    }

    /** The place with a row number: a row, or one of the two ends. */
    method PlaceOf(dest: nat, count: nat) returns (row: Row?)
      requires Shape() && dest <= count == VisibleCount()
      ensures Live(row) && HasNumber(row, dest) && (count == 0 <==> row == root)
    {
      ghost var h, i := Snap(rep), 0;
      if count == 0 {
        NothingToSelect(h, root, tree);
        return root;
      }
      row, i := Select(root, dest, tree, rep);
      Selected(h, root, tree, row, i, dest);
    }

    /** The last part of a seek. */
    method Goto(dest: nat, count: nat)
      requires Shape() && dest <= count == VisibleCount()
      modifies this`current
      ensures SoughtTo(dest)
    {
      current := PlaceOf(dest, count);
    }

    // ---------- reading ----------

    /** Ids of the visible rows, in table order. */
    ghost function VisibleKeys(): seq<Key>
      reads this`tree, this`rep, rep
    {
      Keys(Shown(Snap(rep), InOrder(tree)))
    }

    /** The visible ids are those of the entries that are not hidden. */
    lemma VisibleKeysAre()
      ensures VisibleKeys() == VisibleOf(View()) && VisibleCount() == |VisibleOf(View())|
    {
      ShownAreVisible(Snap(rep), InOrder(tree));
    }

    /** Where a read starts: at the cursor, or at the first visible row from before the table. */
    method ReadStart(count: nat) returns (start: Row?, ghost i: nat)
      requires Valid() && count == VisibleCount() && !(current == root && count == 0)
      ensures i <= |Order()| && start == if i < |Order()| then Order()[i] else null
      ensures current != root ==> start == current
      ensures HasNumber(current, Rank(Snap(rep), Order(), i))
    {
      ghost var h := Snap(rep);
      RowsKnown(h, root, tree);
      if current == root {
        start, i := Select(root, 0, tree, rep);
      } else if current == null {
        start, i := null, |InOrder(tree)|;
        assert InOrder(tree)[..i] == InOrder(tree);
      } else {
        RepIsTree();
        start := current;
        i := Position(current);
        DistinctNoDup(tree);
      }
    }

    /** The reading part of `QueryRows`; `k` is the row number read from. */
    method ReadFrom(rows: nat, count: nat, showHidden: bool)
      returns (keys: seq<Key>, next: Row?, ghost k: nat, ghost i: nat, ghost j: nat)
      requires Valid() && count == VisibleCount() && !(current == root && count == 0)
      ensures HasNumber(current, k) && Reads(Snap(rep), Order(), rows, showHidden, keys, k, i, j)
      ensures next == if j < |Order()| then Order()[j] else null
    {
      var start;
      start, i := ReadStart(count);
      k := Rank(Snap(rep), Order(), i);
      var want := if rows > count then count else rows;
      keys, next, j := Collect(root, start, want, showHidden, i, tree, rep);
      CollectReads(Snap(rep), Order(), rows, showHidden, i, j);
    }

    /** A read that leaves the cursor alone, and the cursor it would leave. */
    method ReadRows(rows: nat, showHidden: bool)
      returns (keys: seq<Key>, next: Row?, ghost k: nat, ghost i: nat, ghost j: nat)
      requires Valid()
      ensures HasNumber(current, k) && Live(next)
      ensures Reads(Snap(rep), Order(), rows, showHidden, keys, k, i, j)
      ensures next == if current == root && VisibleCount() == 0 then root
                      else if j < |Order()| then Order()[j]
                      else null
    {
      var count, number := GetRowCount();
      if current == root && count == 0 {
        k, i, j, keys, next := 0, 0, 0, [], root;
        assert Order()[0..0] == [];
        return;
      }
      keys, next, k, i, j := ReadFrom(rows, count, showHidden);
      RowsKnown(Snap(rep), root, tree);
    }

    /**
     Reads the ids of up to `rows` rows from the cursor on.  `i` and `j` are the positions
     read from and up to, `k` is the row number of the cursor before the read.
     */
    method QueryRows(rows: nat, noAdvance: bool, showHidden: bool)
      returns (keys: seq<Key>, ghost k: nat, ghost i: nat, ghost j: nat)
      requires Valid()
      modifies this`current
      ensures Live(current) && HasNumber(old(current), k)
      ensures Reads(Snap(rep), Order(), rows, showHidden, keys, k, i, j)
      ensures noAdvance ==> current == old(current)
      ensures !noAdvance && !(old(current) == root && VisibleCount() == 0) ==>
        current == if j < |Order()| then Order()[j] else null
    {
      var next;
      keys, next, k, i, j := ReadRows(rows, showHidden);
      if !noAdvance {
        current := next;
      }
    }

    /** The last number is in front of the end. */
    static lemma BeforeEnd(count: nat)
      requires count > 0
      ensures Clamp(ToInt32(count - 1), count) < count
    {
    }

    /** The seek from behind the table to its last row. */
    method SeekLast()
      requires Valid() && current == null
      modifies this`current
      ensures Live(current) && current != null && StartsBack(Snap(rep), root, tree, null, current)
    {
      var er, sought, start, aim := SeekRow(SEEK_CUR, -1);
      if VisibleCount() > 0 {
        BeforeEnd(VisibleCount());
      }
    }

    /** The seeks in front of a backward read. */
    method BackStart()
      requires Valid()
      modifies this`current
      ensures Live(current) && current != null && StartsBack(Snap(rep), root, tree, old(current), current)
    {
      var count, number := GetRowCount();
      if current == null {
        SeekLast();
      } else if current == root && count > 0 {
        var er, sought, start, aim := SeekRow(SEEK_SET, 0);
        assert current != null;
      }
    }

    /** The position of a live row, -1 for the sentinel. */
    lemma PlaceKnown(row: Row) returns (i: int)
      requires Shape() && row in rep
      ensures -1 <= i < |Order()| && row == RowAt(root, Order(), i) && (row == root <==> i == -1)
    {
      RepIsTree();
      i := -1;
      if row != root {
        i := Position(row);
      }
    }

    /** The reading part of a backward read. */
    method ReadBackFrom(start: Row, rows: nat, showHidden: bool)
      returns (keys: seq<Key>, next: Row?, ghost i: int, ghost j: int)
      requires Shape() && start in rep
      ensures ReadsBack(Snap(rep), root, tree, start, rows, showHidden, keys, i, j)
      ensures Live(next) && next == LeftAt(root, tree, i, j)
    {
      CountIsShown(Snap(rep), tree);
      assert CellOf(root) == Snap(rep)[root];
      var count := root.branchCount;
      i := PlaceKnown(start);
      keys, next, j := CollectBack(root, start, if rows > count then count else rows, showHidden, i, tree, rep);
      RowsKnown(Snap(rep), root, tree);
    }

    /** Seeks and reads; the cursor is left where the read started. */
    method ReadRowsBack(rows: nat, showHidden: bool) returns (keys: seq<Key>, next: Row?, ghost i: int, ghost j: int)
      requires Valid()
      modifies this`current
      ensures current in rep && StartsBack(Snap(rep), root, tree, old(current), current)
      ensures ReadsBack(Snap(rep), root, tree, current, rows, showHidden, keys, i, j)
      ensures Live(next) && next == LeftAt(root, tree, i, j)
    {
      BackStart();
      keys, next, i, j := ReadBackFrom(current, rows, showHidden);
    }

    /**
     Reads the ids of up to `rows` rows from the cursor towards the front.  `i` is the position
     read from, and `j` the last one read.
     */
    method QueryRowsBack(rows: nat, noAdvance: bool, showHidden: bool)
      returns (keys: seq<Key>, ghost start: Row, ghost i: int, ghost j: int)
      requires Valid()
      modifies this`current
      ensures Live(current) && StartsBack(Snap(rep), root, tree, old(current), start)
      ensures ReadsBack(Snap(rep), root, tree, start, rows, showHidden, keys, i, j)
      ensures current == if noAdvance then old(current) else LeftAt(root, tree, i, j)
    {
      var before, next := current, null;
      keys, next, i, j := ReadRowsBack(rows, showHidden);
      start := current;
      current := if noAdvance then before else next;
    }

    /** A live position has one row number. */
    lemma OneNumber(row: Row?, a: int, b: int)
      requires Valid() && Live(row) && HasNumber(row, a) && HasNumber(row, b)
      ensures a == b && 0 <= a <= VisibleCount()
    {
      RepIsTree();
      if row != null && row != root {
        var n := Position(row);
        ShownConcat(Snap(rep), Order()[..n], Order()[n..]);
        assert Order()[..n] + Order()[n..] == Order();
      }
    }

    /** A read after a seek to number `dest` gives the visible ids from number `dest` on. */
    lemma ReadAfterSeek(dest: int, rows: nat, keys: seq<Key>, k: nat, i: nat, j: nat)
      requires Valid() && Live(current) && HasNumber(current, dest)
      requires HasNumber(current, k) && Reads(Snap(rep), Order(), rows, false, keys, k, i, j)
      ensures 0 <= dest <= VisibleCount()
      ensures keys == VisibleKeys()[dest..if dest + rows < VisibleCount() then dest + rows else VisibleCount()]
    {
      OneNumber(current, dest, k);
    }

    // ---------- updates ----------

    /** Takes one row out of the tree. */
    method CutRow(row: Row, ghost n: nat)
      requires Shape() && Indexed() && n < |Order()| && Order()[n] == row
      modifies this`tree, this`rep, rep
      ensures Shape() && Detached(row, rep)
      ensures rep == old(rep) - {row} && Order() == old(Order())[..n] + old(Order())[n + 1..]
      ensures View() == old(View())[..n] + old(View())[n + 1..]
    {
      ghost var less := rep - {row};
      UniqueId(row, n);
      ghost var left := RemoveEntry(collation, root, row, n, layout, tree, rep, less);
      TakeOver(left, less);
    }

    /** The table takes over a tree that was built. */
    ghost method TakeOver(result: Tree, rows: set<Row>)
      requires Sound(Snap(rows), root, result) && Balanced(result) && Ordered(collation, layout, InOrder(result))
      requires root.isRoot && root.key == NO_KEY && root.cols == [] && !root.hidden
      modifies this`tree, this`rep
      ensures Shape() && tree == result && rep == rows && View() == EntriesOf(old(Snap(rows)), InOrder(result))
    {
      tree, rep := result, rows;
      assert Snap(rep) == old(Snap(rows));
    }

    /** The index still knows the row that is cut out. */
    method CutIndexed(row: Row, ghost n: nat)
      requires Shape() && Indexed() && n < |Order()| && Order()[n] == row
      modifies this`tree, this`rep, rep
      ensures Shape() && Detached(row, rep) && IndexedBut(row) && rep == old(rep) - {row}
      ensures current == old(current) && bookmarks == old(bookmarks) && mapRow == old(mapRow)
      ensures Order() == old(Order())[..n] + old(Order())[n + 1..]
      ensures View() == old(View())[..n] + old(View())[n + 1..]
    {
      UniqueId(row, n);
      RepIsTree();
      ghost var rows := Rows(tree);
      CutRow(row, n);
      RepIsTree();
      assert Rows(tree) + {row} == rows;
    }

    /** Ids are unique, so the id tells a row from the others. */
    lemma UniqueId(row: Row, n: nat)
      requires Shape() && Indexed() && n < |Order()| && Order()[n] == row
      ensures row in rep && row in Rows(tree)
      ensures forall r :: r in rep && r != root && r.key == row.key ==> r == row
    {
      RepIsTree();
      RowsKnown(Snap(rep), root, tree);
    }

    static function MarksNotOn(m: map<nat, Bookmark>, row: Row): map<nat, Bookmark> {
      map b | b in m && m[b].position != row :: m[b]
    }

    /** A cursor on the row of an id follows the id to its new row; any other cursor stays. */
    static function CursorAfter(cursor: Row?, before: map<Key, Row>, after: map<Key, Row>, key: Key): Row? {
      if key in before && cursor == before[key] && key in after then after[key] else cursor
    }

    /** Bookmarks on the row of an id go when the id has another row afterwards, or none; others stay. */
    static function MarksAfter(
      m: map<nat, Bookmark>, before: map<Key, Row>, after: map<Key, Row>, key: Key): map<nat, Bookmark> {
      if key in before && (key !in after || after[key] != before[key]) then MarksNotOn(m, before[key]) else m
    }

    /** Bookmarks that stay are as they were; those on other rows stay. */
    static lemma MarksKept(m: map<nat, Bookmark>, before: map<Key, Row>, after: map<Key, Row>, key: Key)
      ensures var r := MarksAfter(m, before, after, key);
        && (forall b :: b in r ==> b in m && r[b] == m[b])
        && (forall b :: b in m ==>
              (b !in r <==>
               key in before && m[b].position == before[key] && !(key in after && after[key] == before[key])))
    {
    }

    /** The cursor changes only if its row is replaced, and is then on the new row. */
    static lemma CursorKept(cursor: Row?, before: map<Key, Row>, after: map<Key, Row>, key: Key)
      ensures var r := CursorAfter(cursor, before, after, key);
        && (r != cursor ==> key in before && key in after && cursor == before[key] && r == after[key])
        && (key in before && key in after && cursor == before[key] ==> r == after[key])
    {
    }

    /** Removes the bookmarks on a row. */
    method InvalidateBookmark(row: Row)
      modifies this`bookmarks
      ensures bookmarks == MarksNotOn(old(bookmarks), row)
    {
      bookmarks := map b | b in bookmarks && bookmarks[b].position != row :: bookmarks[b];
    }

    /** After the row of the cursor was cut out, two seeks bring the cursor back to a live row. */
    method Reseat()
      requires Shape() && Marks() && (current == null || current in rep || Detached(current, rep))
      modifies this`current
      ensures Live(current)
    {
      var er, sought, start, aim := SeekRow(SEEK_CUR, -1);
      er, sought, start, aim := SeekRow(SEEK_CUR, 1);
    }

    /** The index still knows a row that has been cut out. */
    ghost predicate IndexedBut(row: Row)
      reads this`tree, this`mapRow
    {
      row !in Rows(tree) && Indexes(mapRow, Rows(tree) + {row})
    }

    /** Cursor, bookmarks and index forget a row that has been cut out. */
    method Forget(row: Row)
      requires Shape() && Detached(row, rep) && IndexedBut(row)
      requires current == null || current == row || current in rep
      requires nextBookmark >= 3
      requires forall b :: b in bookmarks ==>
        3 <= b < nextBookmark && (Live(bookmarks[b].position) || bookmarks[b].position == row)
      modifies this`current, this`bookmarks, this`mapRow
      ensures Live(current) && Marks() && Indexed()
      ensures old(current) != row ==> current == old(current)
      ensures mapRow == old(mapRow) - {row.key} && bookmarks == MarksNotOn(old(bookmarks), row)
    {
      InvalidateBookmark(row);
      assert Marks();
      if current == row {
        Reseat();
      }
      IndexesLess(mapRow, Rows(tree), row);
      mapRow := mapRow - {row.key};
    }

    /** The deletion of the row at position `n`. */
    method DeleteRow(row: Row, ghost n: nat)
      requires Valid() && n < |Order()| && Order()[n] == row
      modifies this`tree, this`rep, this`current, this`bookmarks, this`mapRow, rep
      ensures Valid() && rep == old(rep) - {row} && mapRow == old(mapRow) - {row.key}
      ensures n < |old(View())| && View() == old(View())[..n] + old(View())[n + 1..]
      ensures old(current) != row ==> current == old(current)
      ensures bookmarks == MarksNotOn(old(bookmarks), row)
    {
      CutIndexed(row, n);
      label Cut:
      Forget(row);
      Still@Cut();
    }

    /** The deletion of one id. */
    method DeleteId(key: Key) returns (er: Status)
      requires Valid()
      modifies this`tree, this`rep, this`current, this`bookmarks, this`mapRow, rep
      ensures Valid() && rep <= old(rep)
      ensures DeletedFrom(old(View()), key, View(), er)
      ensures mapRow == old(mapRow) - {key}
      ensures key !in old(mapRow) || old(current) != old(mapRow)[key] ==> current == old(current)
      ensures bookmarks == MarksAfter(old(bookmarks), old(mapRow), mapRow, key)
    {
      if key !in mapRow {
        Absent(key);
        return NotFound;
      }
      var row := mapRow[key];
      ghost var n := Position(row);
      assert View()[n].key == key;
      DeleteRow(row, n);
      er := Success;
    }

    /** Links a new row into the tree. */
    method LinkNew(row: Row) returns (prev: Key, ghost n: nat)
      requires Shape() && !row.isRoot && row !in rep && row.left == null && row.right == null
      requires Conforms(layout, row.cols)
      modifies this`tree, this`rep, rep, row
      ensures Shape() && rep == old(rep) + {row}
      ensures EntrySlot(collation, old(View()), row.cols, n)
      ensures View() == old(View())[..n] + [Entry(row.key, row.cols, old(row.hidden))] + old(View())[n..]
      ensures prev == KeyInFront(old(View()), n)
    {
      ghost var result, all := tree, rep + {row};
      prev, result, n := InsertEntry(collation, root, row, layout, tree, rep, all);
      TakeOver(result, all);
    }

    /** Links a new row with an id the index does not know. */
    method LinkUnindexed(row: Row) returns (prev: Key, ghost n: nat)
      requires Shape() && Indexed() && row.key !in mapRow && Conforms(layout, row.cols)
      requires !row.isRoot && row !in rep && row.left == null && row.right == null
      modifies this`tree, this`rep, rep, row
      ensures Shape() && rep == old(rep) + {row} && Indexes(mapRow[row.key := row], Rows(tree))
      ensures EntrySlot(collation, old(View()), row.cols, n)
      ensures View() == old(View())[..n] + [Entry(row.key, row.cols, old(row.hidden))] + old(View())[n..]
      ensures prev == KeyInFront(old(View()), n)
    {
      RepIsTree();
      ghost var rows := Rows(tree);
      prev, n := LinkNew(row);
      RepIsTree();
      assert Rows(tree) == rows + {row};
      IndexesMore(mapRow, rows, Rows(tree), row);
    }

    /** Links and indexes a new row for an id that is not in the table. */
    method Enter(row: Row) returns (prev: Key)
      requires Valid() && row.key !in mapRow && Conforms(layout, row.cols)
      requires !row.isRoot && row !in rep && row.left == null && row.right == null
      modifies this`tree, this`rep, this`mapRow, rep, row
      ensures Valid() && rep == old(rep) + {row} && mapRow == old(mapRow)[row.key := row]
      ensures current == old(current) && bookmarks == old(bookmarks)
      ensures Inserted(collation, old(View()), Entry(row.key, row.cols, old(row.hidden)), View(), prev)
    {
      ghost var n;
      prev, n := LinkUnindexed(row);
      label Linked:
      mapRow := mapRow[row.key := row];
      Still@Linked();
    }

    /** Creates and enters a row for an id that is not in the table. */
    method AddRow(key: Key, cols: seq<Column>, hidden: bool) returns (prev: Key)
      requires Valid() && key !in mapRow && Conforms(layout, cols)
      modifies this`tree, this`rep, this`mapRow, rep
      ensures Valid() && fresh(rep - old(rep)) && mapRow.Keys == old(mapRow.Keys) + {key}
      ensures Inserted(collation, old(View()), Entry(key, cols, hidden), View(), prev)
    {
      var row := new Row(key, cols, false, hidden);
      Still();
      prev := Enter(row);
    }

    /** Compares the stored row with new sort data, as two strict comparisons. */
    method SameAs(row: Row, cols: seq<Column>, ghost n: nat) returns (same: bool)
      requires Shape() && n < |Order()| && Order()[n] == row
      ensures same == EqualOrder(collation, View()[n].cols, cols)
    {
      RowsKnown(Snap(rep), root, tree);
      var before := RowCompare(collation, row.cols, cols);
      var after := RowCompare(collation, cols, row.cols);
      same := !before && !after;
    }

    /** Puts the cursor on a row. */
    method MoveTo(row: Row?)
      requires Valid() && Live(row)
      modifies this`current
      ensures Valid() && current == row && View() == old(View())
    {
      current := row;
      Still();
    }

    /** The old row at position `n` is deleted and a new row with the same id is entered. */
    method Exchange(gone: Row, row: Row, ghost n: nat) returns (prev: Key)
      requires Valid() && n < |Order()| && Order()[n] == gone && row.key == gone.key && Conforms(layout, row.cols)
      requires !row.isRoot && row !in rep && row.left == null && row.right == null
      modifies this`tree, this`rep, this`current, this`bookmarks, this`mapRow, rep, row
      ensures Valid() && rep <= old(rep) + {row} && mapRow == (old(mapRow) - {row.key})[row.key := row]
      ensures Reinserted(collation, old(View()), n, Entry(row.key, row.cols, old(row.hidden)), View(), prev)
      ensures old(current) != gone ==> current == old(current)
      ensures bookmarks == MarksNotOn(old(bookmarks), gone)
    {
      DeleteRow(gone, n);
      prev := Enter(row);
    }

    static lemma SameKeys(m: map<Key, Row>, row: Row)
      requires row.key in m
      ensures (m - {row.key})[row.key := row].Keys == m.Keys
    {
    }

    /** A row gets a different sort key; a cursor on it moves along. */
    method Replace(row: Row, ghost n: nat)
      returns (prev: Key)
      requires Valid() && row.key in mapRow && Conforms(layout, row.cols) && n < |Order()|
      requires Order()[n] == mapRow[row.key]
      requires !row.isRoot && row !in rep && row.left == null && row.right == null
      modifies this`tree, this`rep, this`current, this`bookmarks, this`mapRow, rep, row
      ensures Valid() && rep <= old(rep) + {row} && mapRow.Keys == old(mapRow.Keys) && mapRow[row.key] == row
      ensures Reinserted(collation, old(View()), n, Entry(row.key, row.cols, old(row.hidden)), View(), prev)
      ensures current == if old(current) == old(mapRow)[row.key] then row else old(current)
      ensures bookmarks == MarksNotOn(old(bookmarks), old(mapRow)[row.key])
    {
      var relocate := mapRow[row.key] == current;
      SameKeys(mapRow, row);
      prev := Exchange(mapRow[row.key], row, n);
      if relocate {
        MoveTo(row);
      }
    }

    /** The replacement, with the row it creates. */
    method ReplaceNew(key: Key, cols: seq<Column>, hidden: bool, ghost n: nat) returns (prev: Key)
      requires Valid() && key in mapRow && Conforms(layout, cols) && n < |Order()| && Order()[n] == mapRow[key]
      modifies this`tree, this`rep, this`current, this`bookmarks, this`mapRow, rep
      ensures Valid() && fresh(rep - old(rep)) && mapRow.Keys == old(mapRow.Keys)
      ensures Reinserted(collation, old(View()), n, Entry(key, cols, hidden), View(), prev)
      ensures current == if old(current) == old(mapRow)[key] then mapRow[key] else old(current)
      ensures mapRow[key] != old(mapRow)[key] && bookmarks == MarksNotOn(old(bookmarks), old(mapRow)[key])
    {
      var row := new Row(key, cols, false, hidden);
      Still();
      prev := Replace(row, n);
    }

    /** The id in front of a row of the table. */
    method InFront(row: Row, ghost n: nat) returns (prev: Key)
      requires Shape() && n < |Order()| && Order()[n] == row
      ensures prev == KeyInFront(View(), n)
    {
      prev := Predecessor(root, row, n, tree, rep);
      assert n > 0 ==> View()[n - 1].key == Order()[n - 1].key;
    }

    /** Modifying an id of the table. */
    method PutKnown(key: Key, cols: seq<Column>, hidden: bool, ghost n: nat) returns (prev: Key)
      requires Valid() && key in mapRow && Conforms(layout, cols) && n < |Order()| && Order()[n] == mapRow[key]
      modifies this`tree, this`rep, this`current, this`bookmarks, this`mapRow, rep
      ensures Valid() && fresh(rep - old(rep))
      ensures Rewritten(collation, old(View()), n, Entry(key, cols, hidden), View(), prev)
      ensures mapRow.Keys == old(mapRow.Keys)
      ensures (mapRow[key] == old(mapRow)[key]) <==> EqualOrder(collation, old(View())[n].cols, cols)
      ensures current == CursorAfter(old(current), old(mapRow), mapRow, key)
      ensures bookmarks == MarksAfter(old(bookmarks), old(mapRow), mapRow, key)
    {
      assert View()[n].key == key;
      var same := SameAs(mapRow[key], cols, n);
      if same {
        prev := InFront(mapRow[key], n);
      } else {
        prev := ReplaceNew(key, cols, hidden, n);
      }
    }

    /** Adding an id that is not in the table. */
    method PutNew(key: Key, cols: seq<Column>, hidden: bool) returns (prev: Key)
      requires Valid() && key !in mapRow && Conforms(layout, cols)
      modifies this`tree, this`rep, this`mapRow, rep
      ensures Valid() && fresh(rep - old(rep)) && mapRow.Keys == old(mapRow.Keys) + {key}
      ensures PutInto(collation, old(View()), Entry(key, cols, hidden), View(), prev, Added)
    {
      Absent(key);
      prev := AddRow(key, cols, hidden);
    }

    /** Modifying an id that is in the table, wherever it is. */
    method PutOld(key: Key, cols: seq<Column>, hidden: bool) returns (prev: Key)
      requires Valid() && key in mapRow && Conforms(layout, cols)
      modifies this`tree, this`rep, this`current, this`bookmarks, this`mapRow, rep
      ensures Valid() && fresh(rep - old(rep)) && mapRow.Keys == old(mapRow.Keys)
      ensures PutInto(collation, old(View()), Entry(key, cols, hidden), View(), prev, Modified)
      ensures current == CursorAfter(old(current), old(mapRow), mapRow, key)
      ensures bookmarks == MarksAfter(old(bookmarks), old(mapRow), mapRow, key)
    {
      ghost var n := Position(mapRow[key]);
      assert View()[n].key == key;
      prev := PutKnown(key, cols, hidden, n);
    }

    /** Adding or modifying one id. */
    method Put(key: Key, cols: seq<Column>, hidden: bool) returns (prev: Key, action: Action)
      requires Valid() && Conforms(layout, cols)
      modifies this`tree, this`rep, this`current, this`bookmarks, this`mapRow, rep
      ensures Valid() && fresh(rep - old(rep)) && mapRow.Keys == old(mapRow.Keys) + {key}
      ensures PutInto(collation, old(View()), Entry(key, cols, hidden), View(), prev, action)
      ensures current == CursorAfter(old(current), old(mapRow), mapRow, key)
      ensures bookmarks == MarksAfter(old(bookmarks), old(mapRow), mapRow, key)
    {
      if key in mapRow {
        action := Modified;
        prev := PutOld(key, cols, hidden);
      } else {
        action := Added;
        prev := PutNew(key, cols, hidden);
      }
    }

    /** Every change of the table. */
    method UpdateRow(change: Change, key: Key, cols: seq<Column>, hidden: bool)
      returns (er: Status, prev: Key, action: Action)
      requires Valid() && (change.Add? || change.Modify? ==> Conforms(layout, cols))
      modifies this`tree, this`rep, this`current, this`bookmarks, this`mapRow, rep
      ensures Valid() && fresh(rep - old(rep))
      ensures match change {
        case Delete =>
          DeletedFrom(old(View()), key, View(), er) && action == if er == Success then Deleted else NoAction
        case Other => er == Success && View() == old(View()) && action == NoAction
        case _ => er == Success && PutInto(collation, old(View()), Entry(key, cols, hidden), View(), prev, action)
      }
      ensures !(change.Delete? && key in old(mapRow) && old(current) == old(mapRow)[key]) ==>
        current == CursorAfter(old(current), old(mapRow), mapRow, key)
      ensures bookmarks == MarksAfter(old(bookmarks), old(mapRow), mapRow, key)
      ensures mapRow.Keys == match change {
        case Delete => old(mapRow.Keys) - {key}
        case Other => old(mapRow.Keys)
        case _ => old(mapRow.Keys) + {key}
      }
    {
      er, prev, action := Success, NO_KEY, NoAction;
      match change {
        case Delete =>
          er := DeleteId(key);
          action := if er == Success then Deleted else NoAction;
        case Add =>
          prev, action := Put(key, cols, hidden);
        case Modify =>
          prev, action := Put(key, cols, hidden);
        case Other =>
      }
    }

    // ---------- hiding ----------

    /** The loop of `HideRows`, behind the row at position `n`. */
    method HideBehind(head: Row, ghost n: nat) returns (list: seq<Key>, end: Row?, met: bool, ghost j: nat)
      requires Valid() && n < |Order()| && Order()[n] == head
      modifies rep`height, rep`branchCount, rep`hidden
      ensures Valid()
      ensures BlockHidden(collation, old(View()), n, j, View(), list)
      ensures end == (if j < |Order()| then Order()[j] else null) && (met <==> current in Order()[n + 1..j])
    {
      ghost var h := Snap(rep);
      list, end, met, j := HideBlock(collation, root, head, current, n, tree, rep);
      HidingEntries(collation, layout, h, Snap(rep), InOrder(tree), n, j);
    }

    /** Where the cursor goes after its row was hidden: the first visible row from the end of the block. */
    ghost predicate NextVisible(cursor: Row?, j: nat)
      reads this`tree, this`rep, rep
    {
      exists m: nat :: IsNextVisible(cursor, j, m)
    }

    ghost predicate IsNextVisible(cursor: Row?, j: nat, m: nat)
      reads this`tree, this`rep, rep
    {
      && j <= m <= |Order()| && cursor == (if m < |Order()| then Order()[m] else null)
      && (forall i :: j <= i < m ==> View()[i].hidden) && (m < |Order()| ==> !View()[m].hidden)
    }

    /** The first visible row from the end of a block. */
    method FindVisible(end: Row?, ghost j: nat) returns (row: Row?)
      requires Shape() && j <= |Order()| && end == if j < |Order()| then Order()[j] else null
      ensures NextVisible(row, j) && Live(row)
    {
      RowsKnown(Snap(rep), root, tree);
      ghost var m;
      row, m := SkipHidden(root, end, j, tree, rep);
      assert IsNextVisible(row, j, m);
    }

    /** The last part of `HideRows`, when the row of the cursor was hidden. */
    method SkipTo(end: Row?, ghost j: nat)
      requires Valid() && j <= |Order()| && end == if j < |Order()| then Order()[j] else null
      modifies this`current
      ensures Valid() && View() == old(View()) && NextVisible(current, j)
    {
      current := FindVisible(end, j);
      Still();
    }

    /** Hides behind a header that is in the table. */
    method HideKnown(head: Row, ghost n: nat) returns (list: seq<Key>, ghost j: nat)
      requires Valid() && n < |Order()| && Order()[n] == head
      modifies this`current, rep`height, rep`branchCount, rep`hidden
      ensures Valid()
      ensures BlockHidden(collation, old(View()), n, j, View(), list)
      ensures if old(current) in Order()[n + 1..j] then NextVisible(current, j) else current == old(current)
    {
      var end, met;
      list, end, met, j := HideBehind(head, n);
      if met {
        SkipTo(end, j);
      }
    }

    /** Hides every row behind the header `key` that shares its sort prefix. */
    method HideRows(key: Key) returns (er: Status, list: seq<Key>, ghost n: nat, ghost j: nat)
      requires Valid()
      modifies this`current, rep`height, rep`branchCount, rep`hidden
      ensures Valid()
      ensures er == (if exists i :: 0 <= i < |old(View())| && old(View())[i].key == key then Success else NotFound)
      ensures er != Success ==> View() == old(View()) && current == old(current) && list == []
      ensures er == Success ==> n < |old(View())| && old(View())[n].key == key
      ensures er == Success ==> BlockHidden(collation, old(View()), n, j, View(), list)
      ensures er == Success ==>
        if old(current) in Order()[n + 1..j] then NextVisible(current, j) else current == old(current)
    {
      n, j := 0, 0;
      if key !in mapRow {
        Absent(key);
        return NotFound, [], n, j;
      }
      n := Position(mapRow[key]);
      assert View()[n].key == key;
      list, j := HideKnown(mapRow[key], n);
      er := Success;
    }

    /** The loop of `UnhideRows`, behind the row at position `n`. */
    method UnhideBehind(head: Row, first: Row, ghost n: nat) returns (list: seq<Key>, end: Row?, ghost j: nat)
      requires Valid() && n + 1 < |Order()| && Order()[n] == head && Order()[n + 1] == first
      modifies rep`height, rep`branchCount, rep`hidden
      ensures Valid()
      ensures LayerShown(collation, old(View()), n, j, View(), list)
      ensures end == (if j < |Order()| then Order()[j] else null) && Live(end)
    {
      ghost var h := Snap(rep);
      list, end, j := UnhideBlock(collation, root, head, first, n, tree, rep);
      RowsKnown(Snap(rep), root, tree);
      ShowingEntries(collation, layout, h, Snap(rep), InOrder(tree), n, j);
    }

    /** Opens one layer behind a visible header of the table; moves the cursor behind the block. */
    method UnhideKnown(head: Row, ghost n: nat) returns (list: seq<Key>, ghost j: nat)
      requires Valid() && n < |Order()| && Order()[n] == head
      modifies this`current, rep`height, rep`branchCount, rep`hidden
      ensures Valid() && n < j <= |Order()| && current == if j < |Order()| then Order()[j] else null
      ensures if n + 1 == |Order()| then View() == old(View()) && list == []
        else LayerShown(collation, old(View()), n, j, View(), list)
    {
      var end := Successor(root, head, n, tree, rep);
      if end == null {
        list, j := [], n + 1;
      } else {
        list, end, j := UnhideBehind(head, end, n);
      }
      MoveTo(end);
    }

    /** Opens the first layer of rows behind the header `key`. */
    method UnhideRows(key: Key) returns (er: Status, list: seq<Key>, ghost n: nat, ghost j: nat)
      requires Valid()
      modifies this`current, rep`height, rep`branchCount, rep`hidden
      ensures Valid()
      ensures er ==
        (if exists i :: 0 <= i < |old(View())| && old(View())[i].key == key && !old(View())[i].hidden then Success
         else NotFound)
      ensures er != Success ==> View() == old(View()) && list == []
      ensures er != Success ==> current == if key in mapRow then mapRow[key] else old(current)
      ensures er == Success ==>
        n < j <= |Order()| && old(View())[n].key == key && current == if j < |Order()| then Order()[j] else null
      ensures er == Success ==>
        if n + 1 == |Order()| then View() == old(View()) && list == []
          else LayerShown(collation, old(View()), n, j, View(), list)
    {
      n, j := 0, 0;
      if key !in mapRow {
        Absent(key);
        return NotFound, [], n, j;
      }
      var head := mapRow[key];
      n := Position(head);
      assert View()[n].key == key;
      if head.hidden {
        OnlyAt(key, n);
        MoveTo(head);
        return NotFound, [], n, j;
      }
      list, j := UnhideKnown(head, n);
      er := Success;
    }

    /** An id occurs once. */
    lemma OnlyAt(key: Key, n: nat)
      requires Valid() && n < |View()| && View()[n].key == key
      ensures forall i :: 0 <= i < |View()| && View()[i].key == key ==> i == n
    {
      RowsKnown(Snap(rep), root, tree);
      DistinctNoDup(tree);
    }

    /** The list is in sort order, and every id occurs once. */
    lemma ViewIsSorted()
      requires Valid()
      ensures SortedEntries(collation, View())
    {
      forall j | 0 <= j < |View()| ensures forall i :: 0 <= i < |View()| && View()[i].key == View()[j].key ==> i == j {
        OnlyAt(View()[j].key, j);
      }
    }

    /** The rows that share the sort prefix of row `key`, itself included; the cursor stays. */
    method GetRowsBySortPrefix(key: Key) returns (er: Status, list: seq<Key>, ghost n: nat, ghost j: nat)
      requires Valid()
      ensures er == (if exists i :: 0 <= i < |View()| && View()[i].key == key then Success else NotFound)
      ensures er != Success ==> list == []
      ensures er == Success ==> n < |View()| && View()[n].key == key && EntryBlock(collation, View(), n, j)
      ensures er == Success ==> list == EntryKeys(View()[n..j])
    {
      n, j := 0, 0;
      if key !in mapRow {
        Absent(key);
        return NotFound, [], n, j;
      }
      n := Position(mapRow[key]);
      assert View()[n].key == key;
      LessIrreflexive(collation, layout, Order()[n].cols);
      list, j := ReadBlock(collation, root, mapRow[key], n, tree, rep);
      BlockOfEntries(collation, layout, Snap(rep), Order(), n, j);
      KeysOfEntries(Snap(rep), Order(), n, j);
      assert View()[n].key == key;
      er := Success;
    }

    // ---------- searching ----------

    /** Puts the cursor on the first row not before a sort key. */
    method LowerBound(cols: seq<Column>) returns (ghost n: nat)
      requires Valid() && Conforms(layout, cols)
      modifies this`current
      ensures Valid() && View() == old(View()) && EntryBound(collation, View(), cols, n)
      ensures current == if n < |Order()| then Order()[n] else null
    {
      RowsKnown(Snap(rep), root, tree);
      current, n := Search.LowerBound(collation, root, cols, layout, tree, rep);
      Still();
    }

    /** The first row with an equal sort key; the cursor stays. */
    method FindKey(cols: seq<Column>) returns (er: Status, key: Key, ghost n: nat)
      requires Valid() && Conforms(layout, cols)
      ensures er ==
        (if exists i :: 0 <= i < |View()| && EqualOrder(collation, View()[i].cols, cols) then Success else NotFound)
      ensures er == Success ==> n < |View()| && View()[n].key == key && EqualOrder(collation, View()[n].cols, cols)
      ensures er == Success ==> forall i :: 0 <= i < n ==> !EqualOrder(collation, View()[i].cols, cols)
    {
      var found;
      found, n := Search.LowerBound(collation, root, cols, layout, tree, rep);
      key := NO_KEY;
      if found == null {
        return NotFound, key, n;
      }
      var greater := RowCompare(collation, cols, found.cols);
      AboveSettles(collation, layout, Order(), cols, n);
      if greater {
        return NotFound, key, n;
      }
      er, key := Success, found.key;
      assert View()[n].key == key;
    }

    // ---------- bookmarks and clearing ----------

    /** Remembers the position of the cursor. */
    method CreateBookmark() returns (er: Status, mark: nat)
      requires Valid()
      modifies this`bookmarks, this`nextBookmark
      ensures Valid() && View() == old(View())
      ensures er == if |old(bookmarks)| >= 100 then UnableToComplete else Success
      ensures er != Success ==> bookmarks == old(bookmarks)
      ensures er == Success ==> mark !in old(bookmarks) && bookmarks.Keys == old(bookmarks.Keys) + {mark}
      ensures er == Success ==>
        bookmarks[mark].position == current && HasNumber(current, bookmarks[mark].firstRowPosition)
      ensures forall b :: b in old(bookmarks) ==> b in bookmarks && bookmarks[b] == old(bookmarks)[b]
    {
      mark := 0;
      if |bookmarks| >= BOOKMARK_LIMIT {
        return UnableToComplete, mark;
      }
      var count, number := GetRowCount();
      mark := nextBookmark;
      nextBookmark := nextBookmark + 1;
      bookmarks := bookmarks[mark := Bookmark(number, current)];
      er := Success;
      Still();
    }

    /** Forgets a bookmark. */
    method FreeBookmark(mark: nat) returns (er: Status)
      requires Valid()
      modifies this`bookmarks
      ensures Valid() && View() == old(View()) && bookmarks == old(bookmarks) - {mark}
      ensures er == if mark in old(bookmarks) then Success else InvalidBookmark
    {
      if mark !in bookmarks {
        return InvalidBookmark;
      }
      bookmarks := bookmarks - {mark};
      er := Success;
      Still();
    }

    /** Frees every row. */
    method Clear()
      requires Valid()
      modifies this`tree, this`rep, this`current, this`bookmarks, this`mapRow, rep`left, rep`right, root`branchCount
      ensures Valid() && View() == [] && current == root && bookmarks == map[] && mapRow == map[] && VisibleCount() == 0
    {
      ClearTree();
      current := root;
      mapRow, bookmarks := map[], map[];
    }

    method ClearTree()
      requires Shape()
      modifies this`tree, this`rep, rep`left, rep`right, root`branchCount
      ensures Shape() && tree == Nil && rep == {root}
    {
      FreeAll(root, tree, rep);
      root.branchCount := 0;
      tree, rep := Nil, {root};
      assert CellOf(root) == Snap(rep)[root];
    }
  }
}
