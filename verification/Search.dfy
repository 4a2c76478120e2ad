/** Binary search, rank and select on a sound tree, against the sorted list of its rows. */
module Search {
  import opened RowOrder
  import opened RowTree
  import opened Memory
  import opened Navigation

  /** The rows are in sort order, and their columns have the flags the table uses. */
  ghost predicate Ordered(k: Collation, layout: nat -> Flags, s: seq<Row>) {
    && Lawful(k)
    && (forall i :: 0 <= i < |s| ==> Conforms(layout, s[i].cols) && !s[i].isRoot)
    && (forall i, j :: 0 <= i < j < |s| ==> !Less(k, s[j].cols, s[i].cols))
  }

  /** Rows that sort before a key form an initial part of the table. */
  lemma BelowIsPrefix(k: Collation, layout: nat -> Flags, s: seq<Row>, key: seq<Column>, i: nat, j: nat)
    requires Ordered(k, layout, s) && Conforms(layout, key) && i <= j < |s| && Less(k, s[j].cols, key)
    ensures Less(k, s[i].cols, key)
  {
    if i < j && !Less(k, s[i].cols, key) {
      NotLessTransitive(k, layout, s[j].cols, s[i].cols, key);
    }
  }

  /** Rows that a key sorts before form a final part of the table. */
  lemma AboveIsSuffix(k: Collation, layout: nat -> Flags, s: seq<Row>, key: seq<Column>, i: nat, j: nat)
    requires Ordered(k, layout, s) && Conforms(layout, key) && i <= j < |s| && Less(k, key, s[i].cols)
    ensures Less(k, key, s[j].cols)
  {
    if i < j && !Less(k, key, s[j].cols) {
      NotLessTransitive(k, layout, key, s[j].cols, s[i].cols);
    }
  }

  /** One comparison with the row at `p` settles one side of it. */
  lemma BelowSettles(k: Collation, layout: nat -> Flags, s: seq<Row>, key: seq<Column>, p: nat)
    requires Ordered(k, layout, s) && Conforms(layout, key) && p < |s|
    ensures Less(k, s[p].cols, key) ==> forall i :: 0 <= i <= p ==> Less(k, s[i].cols, key)
    ensures !Less(k, s[p].cols, key) ==> forall i :: p <= i < |s| ==> !Less(k, s[i].cols, key)
  {
    if Less(k, s[p].cols, key) {
      forall i | 0 <= i <= p ensures Less(k, s[i].cols, key) { BelowIsPrefix(k, layout, s, key, i, p); }
    } else {
      forall i | p <= i < |s| ensures !Less(k, s[i].cols, key) {
        if Less(k, s[i].cols, key) { BelowIsPrefix(k, layout, s, key, p, i); }
      }
    }
  }

  lemma AboveSettles(k: Collation, layout: nat -> Flags, s: seq<Row>, key: seq<Column>, p: nat)
    requires Ordered(k, layout, s) && Conforms(layout, key) && p < |s|
    ensures Less(k, key, s[p].cols) ==> forall i :: p <= i < |s| ==> Less(k, key, s[i].cols)
    ensures !Less(k, key, s[p].cols) ==> forall i :: 0 <= i <= p ==> !Less(k, key, s[i].cols)
  {
    if Less(k, key, s[p].cols) {
      forall i | p <= i < |s| ensures Less(k, key, s[i].cols) { AboveIsSuffix(k, layout, s, key, p, i); }
    } else {
      forall i | 0 <= i <= p ensures !Less(k, key, s[i].cols) {
        if Less(k, key, s[i].cols) { AboveIsSuffix(k, layout, s, key, i, p); }
      }
    }
  }

  /** `n` rows sort before `key`, and they are the first ones. */
  ghost predicate IsLowerBound(k: Collation, s: seq<Row>, key: seq<Column>, n: nat) {
    n <= |s| && (forall i :: 0 <= i < n ==> Less(k, s[i].cols, key)) &&
      (forall i :: n <= i < |s| ==> !Less(k, s[i].cols, key))
  }

  /** Only positions from `lo` up to `hi` are still undecided. */
  ghost predicate Narrowed(k: Collation, s: seq<Row>, key: seq<Column>, lo: nat, hi: nat) {
    && lo <= hi <= |s|
    && (forall i :: 0 <= i < lo ==> Less(k, s[i].cols, key))
    && (forall i :: hi <= i < |s| ==> !Less(k, s[i].cols, key))
  }

  lemma NarrowStep(k: Collation, layout: nat -> Flags, key: seq<Column>, c: Ctx, t: Tree)
    requires t.Node? && Ordered(k, layout, InOrder(Zip(c, t))) && Conforms(layout, key)
    requires Narrowed(k, InOrder(Zip(c, t)), key, |Before(c)|, |Before(c)| + |InOrder(t)|)
    ensures var s, p := InOrder(Zip(c, t)), Pos(c, t);
      && p < |s| && s[p] == t.row
      && |Before(InRight(t.left, t.row, c))| == p + 1 && p + 1 + |InOrder(t.right)| == |Before(c)| + |InOrder(t)|
      && if Less(k, t.row.cols, key) then Narrowed(k, s, key, p + 1, |Before(c)| + |InOrder(t)|)
         else Narrowed(k, s, key, |Before(c)|, p)
  {
    PosAt(c, t);
    BelowSettles(k, layout, InOrder(Zip(c, t)), key, Pos(c, t));
  }

  /** The search loop: it ends at a row next to the lower bound, on the side `before`. */
  method Descend(
    k: Collation, root: Row, key: seq<Column>, ghost layout: nat -> Flags, ghost tree: Tree, ghost rep: set<Row>)
    returns (end: Row?, before: bool, ghost p: nat)
    requires Sound(Snap(rep), root, tree) && Ordered(k, layout, InOrder(tree)) && Conforms(layout, key)
    ensures end == null ==> InOrder(tree) == []
    ensures end != null ==> p < |InOrder(tree)| && end == InOrder(tree)[p]
    ensures end != null ==> IsLowerBound(k, InOrder(tree), key, if before then p + 1 else p)
  {
    ghost var h, s := Snap(rep), InOrder(tree);
    ghost var d, u := Top, tree;
    assert CellOf(root) == h[root];
    end, before, p := root.right, false, 0;
    while end != null
      invariant end == Apex(u) && Zip(d, u) == tree
      invariant Narrowed(k, s, key, |Before(d)|, |Before(d)| + |InOrder(u)|)
      invariant u.Nil? ==> d.Top?
      decreases u
    {
      Local(h, root, d, u);
      NarrowStep(k, layout, key, d, u);
      assert CellOf(end) == h[end];
      p := Pos(d, u);
      before := RowCompare(k, end.cols, key);
      if before {
        if end.right == null {
          return;
        }
        end := end.right;
        d, u := InRight(u.left, u.row, d), u.right;
      } else {
        if end.left == null {
          return;
        }
        end := end.left;
        d, u := InLeft(u.row, u.right, d), u.left;
      }
    }
  }

  /** First row that does not sort before `key`, null if there is none. */
  method LowerBound(
    k: Collation, root: Row, key: seq<Column>, ghost layout: nat -> Flags, ghost tree: Tree, ghost rep: set<Row>)
    returns (found: Row?, ghost n: nat)
    requires Sound(Snap(rep), root, tree) && Ordered(k, layout, InOrder(tree)) && Conforms(layout, key)
    ensures IsLowerBound(k, InOrder(tree), key, n)
    ensures found == if n < |InOrder(tree)| then InOrder(tree)[n] else null
  {
    var end, before, p := Descend(k, root, key, layout, tree, rep);
    found, n := end, if end == null then 0 else p;
    if found != null && before {
      found := Successor(root, found, p, tree, rep);
      n := p + 1;
    }
  }

  /** The table comparison on rows: the sentinel is before every other row. */
  method CompareRows(k: Collation, a: Row, b: Row) returns (less: bool)
    ensures less == if a.isRoot && !b.isRoot then true else if b.isRoot then false else Less(k, a.cols, b.cols)
  {
    if a.isRoot && !b.isRoot {
      return true;
    }
    if b.isRoot {
      return false;
    }
    less := RowCompare(k, a.cols, b.cols);
  }

  /** `key` goes after the first `n` rows: none of them is greater, all others are. */
  ghost predicate IsSlot(k: Collation, s: seq<Row>, key: seq<Column>, n: nat) {
    n <= |s| && (forall i :: 0 <= i < n ==> !Less(k, key, s[i].cols)) &&
      (forall i :: n <= i < |s| ==> Less(k, key, s[i].cols))
  }

  /** The search loop of an insertion: the free child slot where `row` belongs. */
  method FindSlot(k: Collation, root: Row, row: Row, ghost layout: nat -> Flags, ghost tree: Tree, ghost rep: set<Row>)
    returns (owner: Row, side: bool, ghost c: Ctx)
    requires Sound(Snap(rep), root, tree) && Ordered(k, layout, InOrder(tree)) && Conforms(layout, row.cols)
    requires root.isRoot && !row.isRoot
    ensures Zip(c, Nil) == tree && owner == Owner(c, root) && side == c.InLeft? && owner in rep
    ensures IsSlot(k, InOrder(tree), row.cols, |Before(c)|)
    ensures if side then owner.left == null else owner.right == null
  {
    ghost var h, s, key := Snap(rep), InOrder(tree), row.cols;
    ghost var u := tree;
    c := Top;
    owner := root;
    assert CellOf(root) == h[root];
    while true
      invariant owner in rep && CellOf(owner) == h[owner]
      invariant if owner == root then c.Top? && u == tree else u.Node? && owner == u.row
      invariant Zip(c, u) == tree && |Before(c)| + |InOrder(u)| <= |s|
      invariant forall i :: 0 <= i < |Before(c)| ==> !Less(k, key, s[i].cols)
      invariant forall i :: |Before(c)| + |InOrder(u)| <= i < |s| ==> Less(k, key, s[i].cols)
      decreases owner == root, u
    {
      if owner != root {
        Local(h, root, c, u);
        PosAt(c, u);
        AboveSettles(k, layout, s, key, Pos(c, u));
      }
      var less := CompareRows(k, row, owner);
      if less {
        c, u := InLeft(u.row, u.right, c), u.left;
        if owner.left == null {
          side := true;
          break;
        }
        owner := owner.left;
      } else {
        if owner != root {
          c, u := InRight(u.left, u.row, c), u.right;
        }
        if owner.right == null {
          side := false;
          break;
        }
        owner := owner.right;
      }
      Local(h, root, c, u);
      assert CellOf(owner) == h[owner];
    }
  }
}
