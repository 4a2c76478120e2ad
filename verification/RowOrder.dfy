/**
 Sort keys of table rows and the comparison that orders them.

 A sort key is a list of columns.  Raw columns compare byte by byte, float columns by
 value, text columns by a collation that this model does not look into.
 */
module RowOrder {
  import opened Bytes

  datatype Flags = Flags(desc: bool, float: bool, text: bool)

  datatype Column = Column(data: seq<Byte>, flags: Flags)

  /** The two comparisons taken from outside: text collation and the value of a double. */
  datatype Collation = Collation(compareSortKeys: (seq<Byte>, seq<Byte>) -> int, number: seq<Byte> -> real)

  const SIZEOF_DOUBLE := 8

  function Sign(x: int): int {
    if x < 0 then -1 else if x > 0 then 1 else 0
  }

  /** `memcmp` over the length of the shorter operand. */
  function MemCmp(x: seq<Byte>, y: seq<Byte>): int {
    if x == [] || y == [] then 0
    else if x[0] != y[0] then x[0] - y[0]
    else MemCmp(x[1..], y[1..])
  }

  /** Raw comparison of two columns, under the flags of the first. */
  function Compare(k: Collation, a: Column, b: Column): int {
    if a.flags.float then
      if |a.data| != SIZEOF_DOUBLE || |b.data| != SIZEOF_DOUBLE then 0
      else if k.number(a.data) == k.number(b.data) then 0
      else if k.number(a.data) < k.number(b.data) then -1 else 1
    else if a.flags.text then k.compareSortKeys(a.data, b.data)
    else MemCmp(a.data, b.data)
  }

  /** -1, 0 or 1: the raw comparison, then the shorter column first. */
  function ColumnOrder(k: Collation, a: Column, b: Column): int {
    var cmp := Compare(k, a, b);
    if cmp != 0 then Sign(cmp) else Sign(|a.data| - |b.data|)
  }

  /** Whether sort key `a` comes strictly before `b`. */
  predicate Less(k: Collation, a: seq<Column>, b: seq<Column>, ignoreOrder: bool := false) {
    if a == [] || b == [] then |a| < |b|
    else
      var o := ColumnOrder(k, a[0], b[0]);
      if o == 0 then Less(k, a[1..], b[1..], ignoreOrder)
      else (o < 0) != (!ignoreOrder && a[0].flags.desc)
  }

  // ---------- what the order means ----------

  /** Lexicographic order of bytes: at the first difference the smaller byte, or else the shorter string. */
  ghost predicate BytesBefore(x: seq<Byte>, y: seq<Byte>) {
    exists p :: 0 <= p <= |x| && p <= |y| && x[..p] == y[..p] && DiffersAt(x, y, p)
  }

  ghost predicate DiffersAt(x: seq<Byte>, y: seq<Byte>, p: nat)
    requires p <= |x| && p <= |y|
  {
    p < |y| && (p == |x| || x[p] < y[p])
  }

  /** The data of one column is smaller: by number, by collation or byte by byte; on a tie, if it is shorter. */
  ghost predicate Smaller(k: Collation, flags: Flags, x: seq<Byte>, y: seq<Byte>) {
    if flags.float then
      if |x| == 8 && |y| == 8 then k.number(x) < k.number(y) else |x| < |y|
    else if flags.text then
      k.compareSortKeys(x, y) < 0 || (k.compareSortKeys(x, y) == 0 && |x| < |y|)
    else BytesBefore(x, y)
  }

  /** The data of one column is larger, by the same comparison. */
  ghost predicate Larger(k: Collation, flags: Flags, x: seq<Byte>, y: seq<Byte>) {
    if flags.text && !flags.float then
      k.compareSortKeys(x, y) > 0 || (k.compareSortKeys(x, y) == 0 && |y| < |x|)
    else Smaller(k, flags, y, x)
  }

  /** The first `n` columns decide nothing. */
  ghost predicate Tied(k: Collation, a: seq<Column>, b: seq<Column>, n: nat)
    requires n <= |a| && n <= |b|
  {
    forall j :: 0 <= j < n ==>
      !Smaller(k, a[j].flags, a[j].data, b[j].data) && !Larger(k, a[j].flags, a[j].data, b[j].data)
  }

  /** Column `i` is the first that decides, for `a`. */
  ghost predicate DecidesFor(k: Collation, a: seq<Column>, b: seq<Column>, ignoreOrder: bool, i: nat)
    requires i < |a| && i < |b|
  {
    && Tied(k, a, b, i)
    && if a[i].flags.desc && !ignoreOrder then Larger(k, a[i].flags, a[i].data, b[i].data)
       else Smaller(k, a[i].flags, a[i].data, b[i].data)
  }

  /**
   The order of a table: the first column that differs decides, the smaller data first or, in a
   descending column, the larger; if no common column differs, the key with fewer columns is first.
   */
  ghost predicate SortsBefore(k: Collation, a: seq<Column>, b: seq<Column>, ignoreOrder: bool) {
    || (exists i :: 0 <= i < |a| && i < |b| && DecidesFor(k, a, b, ignoreOrder, i))
    || (|a| < |b| && Tied(k, a, b, |a|))
  }

  lemma {:induction false} MemCmpMeans(x: seq<Byte>, y: seq<Byte>)
    ensures MemCmp(x, y) < 0 || (MemCmp(x, y) == 0 && |x| < |y|) <==> BytesBefore(x, y)
  {
    if x == [] || y == [] {
      assert x == [] && y != [] ==> x[..0] == y[..0] && DiffersAt(x, y, 0);
    } else if x[0] != y[0] {
      assert x[0] < y[0] ==> x[..0] == y[..0] && DiffersAt(x, y, 0);
      assert forall p :: 0 < p <= |x| && p <= |y| ==> x[..p][0] != y[..p][0];
    } else {
      MemCmpMeans(x[1..], y[1..]);
      TailBefore(x, y);
    }
  }

  lemma TailBefore(x: seq<Byte>, y: seq<Byte>)
    requires x != [] && y != [] && x[0] == y[0]
    ensures BytesBefore(x, y) <==> BytesBefore(x[1..], y[1..])
  {
    if BytesBefore(x, y) {
      var p :| 0 <= p <= |x| && p <= |y| && x[..p] == y[..p] && DiffersAt(x, y, p);
      assert x[1..][..p - 1] == x[..p][1..] && y[1..][..p - 1] == y[..p][1..];
      assert DiffersAt(x[1..], y[1..], p - 1);
    }
    if BytesBefore(x[1..], y[1..]) {
      var p :| 0 <= p <= |x[1..]| && p <= |y[1..]| && x[1..][..p] == y[1..][..p] && DiffersAt(x[1..], y[1..], p);
      assert x[..p + 1] == [x[0]] + x[1..][..p] && y[..p + 1] == [y[0]] + y[1..][..p];
      assert DiffersAt(x, y, p + 1);
    }
  }

  lemma ColumnMeans(k: Collation, a: Column, b: Column)
    ensures ColumnOrder(k, a, b) < 0 <==> Smaller(k, a.flags, a.data, b.data)
    ensures ColumnOrder(k, a, b) > 0 <==> Larger(k, a.flags, a.data, b.data)
  {
    MemCmpMeans(a.data, b.data);
    MemCmpMeans(b.data, a.data);
    MemCmpSign(a.data, b.data);
  }

  lemma TiedTail(k: Collation, a: seq<Column>, b: seq<Column>, n: nat)
    requires a != [] && b != [] && n < |a| && n < |b| && Tied(k, a, b, 1)
    ensures Tied(k, a, b, n + 1) <==> Tied(k, a[1..], b[1..], n)
  {
    if Tied(k, a[1..], b[1..], n) {
      forall j | 0 <= j < n + 1
        ensures !Smaller(k, a[j].flags, a[j].data, b[j].data) && !Larger(k, a[j].flags, a[j].data, b[j].data)
      {
        assert j > 0 ==> a[j] == a[1..][j - 1] && b[j] == b[1..][j - 1];
      }
    }
    if Tied(k, a, b, n + 1) {
      forall j | 0 <= j < n
        ensures var c, d := a[1..][j], b[1..][j];
          !Smaller(k, c.flags, c.data, d.data) && !Larger(k, c.flags, c.data, d.data)
      {
        assert a[1..][j] == a[j + 1] && b[1..][j] == b[j + 1];
      }
    }
  }

  /** Behind a tie the other columns decide. */
  lemma TailSorts(k: Collation, a: seq<Column>, b: seq<Column>, ignoreOrder: bool)
    requires a != [] && b != [] && Tied(k, a, b, 1)
    ensures SortsBefore(k, a, b, ignoreOrder) <==> SortsBefore(k, a[1..], b[1..], ignoreOrder)
  {
    if i :| 0 <= i < |a| && i < |b| && DecidesFor(k, a, b, ignoreOrder, i) {
      assert i > 0;
      TiedTail(k, a, b, i - 1);
      assert DecidesFor(k, a[1..], b[1..], ignoreOrder, i - 1);
    }
    if i :| 0 <= i < |a[1..]| && i < |b[1..]| && DecidesFor(k, a[1..], b[1..], ignoreOrder, i) {
      TiedTail(k, a, b, i);
      assert DecidesFor(k, a, b, ignoreOrder, i + 1);
    }
    if |a| < |b| {
      TiedTail(k, a, b, |a| - 1);
    }
  }

  /** The recursive order is the order of a table. */
  lemma {:induction false} LessMeans(k: Collation, a: seq<Column>, b: seq<Column>, ignoreOrder: bool)
    ensures Less(k, a, b, ignoreOrder) <==> SortsBefore(k, a, b, ignoreOrder)
    decreases a
  {
    if a != [] && b != [] {
      ColumnMeans(k, a[0], b[0]);
      if ColumnOrder(k, a[0], b[0]) == 0 {
        LessMeans(k, a[1..], b[1..], ignoreOrder);
        TailSorts(k, a, b, ignoreOrder);
      } else {
        assert forall i :: 0 < i < |a| && i < |b| ==> !Tied(k, a, b, i);
        assert Tied(k, a, b, 0);
        assert DecidesFor(k, a, b, ignoreOrder, 0) ==> SortsBefore(k, a, b, ignoreOrder);
      }
    }
  }

  /** The comparison loop of the table, column by column. */
  method RowCompare(k: Collation, a: seq<Column>, b: seq<Column>, ignoreOrder: bool := false) returns (less: bool)
    ensures less <==> SortsBefore(k, a, b, ignoreOrder)
    ensures less == Less(k, a, b, ignoreOrder)
  {
    LessMeans(k, a, b, ignoreOrder);
    var cols := if |a| < |b| then |a| else |b|;
    var ret := false;
    var i := 0;
    while i < cols
      invariant 0 <= i <= cols
      invariant Less(k, a, b, ignoreOrder) == Less(k, a[i..], b[i..], ignoreOrder)
    {
      var cmp := 0;
      if a[i].flags.float {
        if |a[i].data| != SIZEOF_DOUBLE || |b[i].data| != SIZEOF_DOUBLE {
          cmp := 0;
        } else {
          var x, y := k.number(a[i].data), k.number(b[i].data);
          if x == y {
            cmp := 0;
          } else if x < y {
            cmp := -1;
          } else {
            cmp := 1;
          }
        }
      } else if a[i].flags.text {
        cmp := k.compareSortKeys(a[i].data, b[i].data);
      } else {
        cmp := MemCmp(a[i].data, b[i].data);
      }
      assert cmp == Compare(k, a[i], b[i]);
      assert a[i..][1..] == a[i + 1..] && b[i..][1..] == b[i + 1..];
      if cmp < 0 {
        ret := true;
        break;
      } else if cmp == 0 {
        if |a[i].data| != |b[i].data| {
          ret := |a[i].data| < |b[i].data|;
          break;
        }
      } else {
        ret := false;
        break;
      }
      i := i + 1;
    }
    if i == cols {
      if |a| == |b| {
        return false;
      }
      return |a| < |b|;
    } else if !ignoreOrder && a[i].flags.desc {
      return !ret;
    } else {
      return ret;
    }
  }

  // ---------- strict weak order ----------

  /** What the table needs of the text collation: it is a total preorder. */
  ghost predicate Lawful(k: Collation) {
    && (forall x, y :: Sign(k.compareSortKeys(x, y)) == -Sign(k.compareSortKeys(y, x)))
    && (forall x, y, z :: k.compareSortKeys(x, y) <= 0 && k.compareSortKeys(y, z) <= 0 ==> k.compareSortKeys(x, z) <= 0)
  }

  /** Every column has the flags that `layout` fixes for its position. */
  ghost predicate Conforms(layout: nat -> Flags, a: seq<Column>) {
    forall i :: 0 <= i < |a| ==> a[i].flags == layout(i)
  }

  ghost function Shift(layout: nat -> Flags): nat -> Flags {
    (i: nat) => layout(i + 1)
  }

  lemma ConformsTail(layout: nat -> Flags, a: seq<Column>)
    requires Conforms(layout, a) && a != []
    ensures Conforms(Shift(layout), a[1..]) && a[0].flags == layout(0)
  {
    assert forall i :: 0 <= i < |a[1..]| ==> a[1..][i] == a[i + 1];
  }

  lemma {:induction false} MemCmpSign(x: seq<Byte>, y: seq<Byte>)
    ensures MemCmp(x, y) == -MemCmp(y, x)
  {
    if x != [] && y != [] && x[0] == y[0] {
      MemCmpSign(x[1..], y[1..]);
    }
  }

  /** `memcmp` ties broken by length is the lexicographic order. */
  ghost function Lex(x: seq<Byte>, y: seq<Byte>): int {
    if MemCmp(x, y) != 0 then Sign(MemCmp(x, y)) else Sign(|x| - |y|)
  }

  lemma {:induction false} LexTransitive(x: seq<Byte>, y: seq<Byte>, z: seq<Byte>)
    requires Lex(x, y) <= 0 && Lex(y, z) <= 0
    ensures Lex(x, z) <= 0
  {
    if x != [] && y != [] && z != [] && x[0] == y[0] == z[0] {
      LexTransitive(x[1..], y[1..], z[1..]);
    }
  }

  lemma ColumnAntisymmetric(k: Collation, a: Column, b: Column)
    requires Lawful(k) && a.flags == b.flags
    ensures ColumnOrder(k, a, b) == -ColumnOrder(k, b, a)
  {
    MemCmpSign(a.data, b.data);
    assert Sign(k.compareSortKeys(a.data, b.data)) == -Sign(k.compareSortKeys(b.data, a.data));
  }

  lemma ColumnTransitive(k: Collation, a: Column, b: Column, c: Column)
    requires Lawful(k) && a.flags == b.flags == c.flags
    requires ColumnOrder(k, a, b) <= 0 && ColumnOrder(k, b, c) <= 0
    ensures ColumnOrder(k, a, c) <= 0
  {
    if a.flags.float {
    } else if a.flags.text {
      assert Sign(k.compareSortKeys(a.data, b.data)) == -Sign(k.compareSortKeys(b.data, a.data));
      assert Sign(k.compareSortKeys(b.data, c.data)) == -Sign(k.compareSortKeys(c.data, b.data));
      assert Sign(k.compareSortKeys(a.data, c.data)) == -Sign(k.compareSortKeys(c.data, a.data));
      assert k.compareSortKeys(a.data, c.data) <= 0;
      if k.compareSortKeys(a.data, c.data) == 0 {
        assert k.compareSortKeys(c.data, b.data) <= 0 by {
          assert k.compareSortKeys(c.data, a.data) <= 0 && k.compareSortKeys(a.data, b.data) <= 0;
        }
        assert k.compareSortKeys(b.data, a.data) <= 0 by {
          assert k.compareSortKeys(b.data, c.data) <= 0 && k.compareSortKeys(c.data, a.data) <= 0;
        }
      }
    } else {
      assert ColumnOrder(k, a, b) == Lex(a.data, b.data) && ColumnOrder(k, b, c) == Lex(b.data, c.data);
      LexTransitive(a.data, b.data, c.data);
    }
  }

  lemma {:induction false} LessAsymmetric(k: Collation, layout: nat -> Flags, a: seq<Column>, b: seq<Column>)
    requires Lawful(k) && Conforms(layout, a) && Conforms(layout, b)
    requires Less(k, a, b)
    ensures !Less(k, b, a)
    decreases a
  {
    if a != [] && b != [] {
      ConformsTail(layout, a);
      ConformsTail(layout, b);
      ColumnAntisymmetric(k, a[0], b[0]);
      if ColumnOrder(k, a[0], b[0]) == 0 {
        LessAsymmetric(k, Shift(layout), a[1..], b[1..]);
      }
    }
  }

  /** Not being before is transitive; with asymmetry this makes `Less` a strict weak order. */
  lemma {:induction false} NotLessTransitive(
    k: Collation, layout: nat -> Flags, a: seq<Column>, b: seq<Column>, c: seq<Column>)
    requires Lawful(k) && Conforms(layout, a) && Conforms(layout, b) && Conforms(layout, c)
    requires !Less(k, a, b) && !Less(k, b, c)
    ensures !Less(k, a, c)
    decreases a
  {
    if a != [] && b != [] && c != [] {
      ConformsTail(layout, a);
      ConformsTail(layout, b);
      ConformsTail(layout, c);
      ColumnChain(k, a[0], b[0], c[0]);
      if ColumnOrder(k, a[0], b[0]) == 0 && ColumnOrder(k, b[0], c[0]) == 0 {
        NotLessTransitive(k, Shift(layout), a[1..], b[1..], c[1..]);
      }
    }
  }

  /** Column comparisons compose in both directions. */
  lemma ColumnChain(k: Collation, a: Column, b: Column, c: Column)
    requires Lawful(k) && a.flags == b.flags == c.flags
    ensures var x, y, z := ColumnOrder(k, a, b), ColumnOrder(k, b, c), ColumnOrder(k, a, c);
      && (x == 0 ==> z == y) && (y == 0 ==> z == x) && (x == y ==> z == x)
  {
    ColumnAntisymmetric(k, a, b);
    ColumnAntisymmetric(k, b, c);
    ColumnAntisymmetric(k, a, c);
    var x, y, z := ColumnOrder(k, a, b), ColumnOrder(k, b, c), ColumnOrder(k, a, c);
    if x <= 0 && y <= 0 {
      ColumnTransitive(k, a, b, c);
      if z == 0 {
        // c <= a <= b and b <= c <= a
        ColumnTransitive(k, c, a, b);
        ColumnTransitive(k, b, c, a);
      }
    }
    if x >= 0 && y >= 0 {
      ColumnTransitive(k, c, b, a);
      if z == 0 {
        ColumnTransitive(k, b, a, c);
        ColumnTransitive(k, a, c, b);
      }
    }
  }

  /** Neither of two keys is before the other just when they have as many columns and no column differs. */
  lemma {:induction false} EqualMeans(k: Collation, layout: nat -> Flags, a: seq<Column>, b: seq<Column>)
    requires Lawful(k) && Conforms(layout, a) && Conforms(layout, b)
    ensures !Less(k, a, b) && !Less(k, b, a) <==> |a| == |b| && Tied(k, a, b, |a|)
    decreases a
  {
    if a != [] && b != [] {
      ConformsTail(layout, a);
      ConformsTail(layout, b);
      ColumnAntisymmetric(k, a[0], b[0]);
      ColumnMeans(k, a[0], b[0]);
      if ColumnOrder(k, a[0], b[0]) == 0 {
        EqualMeans(k, Shift(layout), a[1..], b[1..]);
        assert Tied(k, a, b, 1);
        if |a| == |b| {
          TiedTail(k, a, b, |a| - 1);
        }
      }
    }
  }

  // ---------- prefixes ----------

  /** The first `n` columns. */
  function Prefix(n: nat, a: seq<Column>): seq<Column> {
    if |a| > n then a[..n] else a
  }

  /** Comparison restricted to the first `n` columns of either key. */
  method RowComparePrefix(n: nat, k: Collation, a: seq<Column>, b: seq<Column>) returns (less: bool)
    ensures less == Less(k, Prefix(n, a), Prefix(n, b))
  {
    less := RowCompare(k, if |a| > n then a[..n] else a, if |b| > n then b[..n] else b);
  }

  /** `row` agrees with `head` on all columns of `head`. */
  ghost predicate SharesPrefix(k: Collation, head: seq<Column>, row: seq<Column>) {
    !Less(k, head, Prefix(|head|, row)) && !Less(k, Prefix(|head|, row), head)
  }

  /** That is to say, it has all columns of `head`, and none of them differs. */
  lemma SharesMeans(k: Collation, layout: nat -> Flags, head: seq<Column>, row: seq<Column>)
    requires Lawful(k) && Conforms(layout, head) && Conforms(layout, row)
    ensures SharesPrefix(k, head, row) <==> |head| <= |row| && Tied(k, head, row, |head|)
  {
    ConformsPrefix(layout, |head|, row);
    EqualMeans(k, layout, head, Prefix(|head|, row));
    if |head| <= |row| {
      assert forall j :: 0 <= j < |head| ==> Prefix(|head|, row)[j] == row[j];
    }
  }

  /** A key compares with a shorter or equal one as its prefix does. */
  lemma {:induction false} PrefixBefore(k: Collation, head: seq<Column>, row: seq<Column>)
    ensures Less(k, row, head) <==> Less(k, Prefix(|head|, row), head)
    decreases row
  {
    if head != [] && row != [] {
      PrefixBefore(k, head[1..], row[1..]);
      PrefixTail(|head|, row);
    }
  }

  lemma PrefixTail(n: nat, row: seq<Column>)
    requires n > 0 && row != []
    ensures Prefix(n, row) != [] && Prefix(n, row)[0] == row[0] && Prefix(n, row)[1..] == Prefix(n - 1, row[1..])
  {
  }

  /** Cutting keys to a prefix keeps their order. */
  lemma {:induction false} PrefixMonotone(n: nat, k: Collation, a: seq<Column>, b: seq<Column>)
    requires !Less(k, b, a)
    ensures !Less(k, Prefix(n, b), Prefix(n, a))
    decreases a
  {
    if n > 0 && a != [] && b != [] {
      PrefixTail(n, a);
      PrefixTail(n, b);
      if ColumnOrder(k, b[0], a[0]) == 0 {
        PrefixMonotone(n - 1, k, a[1..], b[1..]);
      }
    }
  }

  lemma ConformsPrefix(layout: nat -> Flags, n: nat, a: seq<Column>)
    requires Conforms(layout, a)
    ensures Conforms(layout, Prefix(n, a))
  {
  }
}
