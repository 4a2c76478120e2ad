/**
 Depth-coded lists of items and the elements they are written as.  A list is the preorder of a
 forest; the writer only sees depths going up and down.
 */
module DavItems {
  import opened Options

  datatype Name = Name(ns: string, prop: string)

  /** An item with text is an element with that text; one without is an element with what is below it. */
  datatype Item = Item(name: Name, text: string, depth: nat)

  datatype Token = Open(name: Name) | Text(name: Name, text: string) | Close

  datatype Tree = Node(name: Name, kids: seq<Tree>) | Leaf(name: Name, text: string)

  const ULONG_RANGE := 0x1_0000_0000
  const ACE := "ace"

  function Closes(n: nat): seq<Token> {
    if n == 0 then [] else [Close] + Closes(n - 1)
  }

  function Print(item: Item): Token {
    if item.text != "" then Text(item.name, item.text) else Open(item.name)
  }

  // ---------- forests ----------

  /** The list of a forest whose roots are at depth `d`. */
  function Preorder(f: seq<Tree>, d: nat): seq<Item> {
    if f == [] then [] else TreeItems(f[0], d) + Preorder(f[1..], d)
  }

  function TreeItems(t: Tree, d: nat): seq<Item> {
    match t
    case Leaf(name, text) => [Item(name, text, d)]
    case Node(name, kids) => [Item(name, "", d)] + Preorder(kids, d + 1)
  }

  /** A forest as nested elements. */
  function Rendered(f: seq<Tree>): seq<Token> {
    if f == [] then [] else RenderedTree(f[0]) + Rendered(f[1..])
  }

  function RenderedTree(t: Tree): seq<Token> {
    match t
    case Leaf(name, text) => [Text(name, text)]
    case Node(name, kids) => [Open(name)] + Rendered(kids) + [Close]
  }

  /** Leaves have text. */
  predicate Texts(f: seq<Tree>) {
    f == [] || (TextTree(f[0]) && Texts(f[1..]))
  }

  predicate TextTree(t: Tree) {
    match t
    case Leaf(name, text) => text != ""
    case Node(name, kids) => Texts(kids)
  }

  predicate RootsAreNodes(f: seq<Tree>) {
    forall t :: t in f ==> t.Node?
  }

  // ---------- what the writer does with a list ----------

  /** What must be written: an item closes all elements that are not above it. */
  function Meant(items: seq<Item>, open: nat): seq<Token> {
    if items == [] then Closes(open)
    else Closes(Below(items[0], open)) + ([Print(items[0])] + Meant(items[1..], After(items[0])))
  }

  /** What is written: the same, except that one item does not close the element of the item before it. */
  function Emitted(items: seq<Item>, open: nat): seq<Token> {
    if items == [] then Closes(open)
    else Before(items[0], open) + ([Print(items[0])] + Emitted(items[1..], After(items[0])))
  }

  /** With `open` elements open, the number of those that are not above an item. */
  function Below(item: Item, open: nat): nat {
    if item.depth > open then 0 else open - item.depth
  }

  function Before(item: Item, open: nat): seq<Token> {
    if IsBad(item, open) then [] else Closes(Below(item, open))
  }

  /** The number of open elements the writer believes in after an item. */
  function After(item: Item): nat {
    if item.text != "" then item.depth else item.depth + 1
  }

  /**
   An "ace" directly behind an element of its own depth, or behind a text one level deeper: the
   element that is open at its depth is not closed.
   */
  predicate IsBad(item: Item, open: nat) {
    item.name.prop == ACE && open == item.depth + 1
  }

  /** No item is more than one level below the one before it; text is not at the top. */
  predicate Level(items: seq<Item>, open: nat) {
    items == [] ||
    (items[0].depth <= open && (items[0].text != "" ==> items[0].depth > 0) && Level(items[1..], After(items[0])))
  }

  /** A list the writer takes: level, and with depths an unsigned number can hold. */
  predicate Fits(items: seq<Item>) {
    Level(items, 0) && Small(items)
  }

  predicate Small(items: seq<Item>) {
    forall item :: item in items ==> item.depth < ULONG_RANGE - 1
  }

  function Bad(items: seq<Item>, open: nat): nat {
    if items == [] then 0 else (if IsBad(items[0], open) then 1 else 0) + Bad(items[1..], After(items[0]))
  }

  lemma {:induction false} ClosesTogether(a: nat, b: nat)
    ensures Closes(a + b) == Closes(a) + Closes(b)
  {
    if a > 0 {
      ClosesTogether(a - 1, b);
    }
  }

  lemma Assoc(a: seq<Token>, b: seq<Token>, c: seq<Token>)
    ensures (a + b) + c == a + (b + c)
  {
  }

  /** Behind a deeper place, elements are closed first. */
  lemma CloseFirst(items: seq<Item>, d: nat, open: nat)
    requires d <= open && NotBelow(items, d)
    ensures Meant(items, open) == Closes(open - d) + Meant(items, d)
  {
    if items == [] {
      ClosesTogether(open - d, d);
    } else {
      ClosesTogether(open - d, d - items[0].depth);
      Assoc(Closes(open - d), Closes(d - items[0].depth), [Print(items[0])] + Meant(items[1..], After(items[0])));
    }
  }

  /** A place in a list where an element at depth `d` may follow. */
  predicate NotBelow(items: seq<Item>, d: nat) {
    items == [] || items[0].depth <= d
  }

  lemma HeadOfForest(f: seq<Tree>, d: nat, rest: seq<Item>)
    requires NotBelow(rest, d)
    ensures NotBelow(Preorder(f, d) + rest, d)
  {
    if f == [] {
      assert Preorder(f, d) + rest == rest;
    } else {
      var items := TreeItems(f[0], d);
      assert items != [] && items[0].depth == d;
      assert Preorder(f, d) + rest == items + (Preorder(f[1..], d) + rest);
    }
  }

  /** The list of a forest, followed by items that are not below it, means the forest. */
  lemma {:induction false} ForestMeant(f: seq<Tree>, d: nat, rest: seq<Item>, open: nat)
    requires Texts(f) && d <= open && NotBelow(rest, d)
    ensures NotBelow(Preorder(f, d) + rest, d)
    ensures Meant(Preorder(f, d) + rest, open) == Closes(open - d) + (Rendered(f) + Meant(rest, d))
    decreases f
  {
    HeadOfForest(f, d, rest);
    if f == [] {
      CloseFirst(rest, d, open);
      assert Preorder(f, d) + rest == rest;
    } else {
      var more := Preorder(f[1..], d) + rest;
      assert Preorder(f, d) + rest == TreeItems(f[0], d) + more;
      ForestMeant(f[1..], d, rest, d);
      TreeMeant(f[0], d, more, open);
      Chained(Closes(open - d), RenderedTree(f[0]), Rendered(f[1..]), Meant(rest, d), Meant(more, d));
    }
  }

  lemma Chained(closes: seq<Token>, first: seq<Token>, others: seq<Token>, behind: seq<Token>, more: seq<Token>)
    requires more == Closes(0) + (others + behind)
    ensures closes + (first + more) == closes + ((first + others) + behind)
  {
    NoCloses(others + behind);
    Assoc(first, others, behind);
  }

  lemma NoCloses(tail: seq<Token>)
    ensures Closes(0) + tail == tail
  {
  }

  lemma {:induction false} TreeMeant(t: Tree, d: nat, more: seq<Item>, open: nat)
    requires TextTree(t) && d <= open && NotBelow(more, d)
    ensures Meant(TreeItems(t, d) + more, open) == Closes(open - d) + (RenderedTree(t) + Meant(more, d))
    decreases t
  {
    match t
    case Leaf(name, text) =>
      assert (TreeItems(t, d) + more)[1..] == more;
    case Node(name, kids) =>
      ForestMeant(kids, d + 1, more, d + 1);
      NodeMeant(name, kids, d, more, open);
  }

  /** An element, given what its children mean. */
  lemma NodeMeant(name: Name, kids: seq<Tree>, d: nat, more: seq<Item>, open: nat)
    requires TextTree(Node(name, kids)) && d <= open && NotBelow(more, d)
    requires Meant(Preorder(kids, d + 1) + more, d + 1) == Closes(0) + (Rendered(kids) + Meant(more, d + 1))
    ensures Meant(TreeItems(Node(name, kids), d) + more, open)
         == Closes(open - d) + (RenderedTree(Node(name, kids)) + Meant(more, d))
  {
    var below := Preorder(kids, d + 1) + more;
    assert TreeItems(Node(name, kids), d) + more == [Item(name, "", d)] + below;
    HeadMeant(Item(name, "", d), below, open);
    CloseFirst(more, d, d + 1);
    NodeTokens(Closes(open - d), name, Rendered(kids), Meant(more, d), Meant(more, d + 1), Meant(below, d + 1));
  }

  lemma HeadMeant(item: Item, rest: seq<Item>, open: nat)
    ensures Meant([item] + rest, open) == Closes(Below(item, open)) + ([Print(item)] + Meant(rest, After(item)))
  {
    assert ([item] + rest)[1..] == rest;
  }

  lemma NodeTokens(
    closes: seq<Token>, name: Name, inner: seq<Token>, tail: seq<Token>, behind: seq<Token>, below: seq<Token>)
    requires behind == Closes(1) + tail && below == Closes(0) + (inner + behind)
    ensures closes + ([Open(name)] + below) == closes + (([Open(name)] + inner + [Close]) + tail)
  {
    assert Closes(0) == [] && Closes(1) == [Close];
    assert [Open(name)] + below == ([Open(name)] + inner + [Close]) + tail;
  }

  lemma {:induction false} LevelOpen(items: seq<Item>, d: nat, open: nat)
    requires Level(items, d) && d <= open
    ensures Level(items, open)
  {
  }

  /** The list of a forest goes down one level at a time, if text is not at the top. */
  lemma {:induction false} ForestLevel(f: seq<Tree>, d: nat, rest: seq<Item>, open: nat)
    requires Texts(f) && (d > 0 || RootsAreNodes(f)) && d <= open && Level(rest, d)
    ensures Level(Preorder(f, d) + rest, open)
    decreases f
  {
    if f == [] {
      assert Preorder(f, d) + rest == rest;
      LevelOpen(rest, d, open);
    } else {
      var more := Preorder(f[1..], d) + rest;
      assert Preorder(f, d) + rest == TreeItems(f[0], d) + more;
      ForestLevel(f[1..], d, rest, d);
      TreeLevel(f[0], d, more, open);
    }
  }

  lemma {:induction false} TreeLevel(t: Tree, d: nat, more: seq<Item>, open: nat)
    requires TextTree(t) && (d > 0 || t.Node?) && d <= open && Level(more, d)
    ensures Level(TreeItems(t, d) + more, open)
    decreases t
  {
    var items := TreeItems(t, d) + more;
    match t
    case Leaf(_, _) =>
      assert items[1..] == more;
    case Node(_, kids) =>
      assert items[1..] == Preorder(kids, d + 1) + more;
      LevelOpen(more, d, d + 1);
      ForestLevel(kids, d + 1, more, d + 1);
  }

  // ---------- nesting ----------

  /** The number of open elements behind some tokens, if no element is closed that is not open. */
  function Nest(tokens: seq<Token>, d: nat): Option<nat> {
    if tokens == [] then Some(d)
    else
      match tokens[0]
      case Open(_) => Nest(tokens[1..], d + 1)
      case Text(_, _) => Nest(tokens[1..], d)
      case Close => if d == 0 then None else Nest(tokens[1..], d - 1)
  }

  lemma {:induction false} NestTogether(a: seq<Token>, b: seq<Token>, d: nat)
    ensures Nest(a + b, d) == match Nest(a, d) case None => None case Some(e) => Nest(b, e)
    decreases |a|
  {
    if a == [] {
      assert a + b == b;
    } else {
      assert (a + b)[1..] == a[1..] + b;
      NestTogether(a[1..], b,
                   match a[0]
                   case Open(_) => d + 1
                   case Text(_, _) => d
                   case Close => if d == 0 then 0 else d - 1);
    }
  }

  lemma {:induction false} NestCloses(n: nat, d: nat)
    requires n <= d
    ensures Nest(Closes(n), d) == Some(d - n)
  {
    if n > 0 {
      assert Closes(n)[1..] == Closes(n - 1);
      NestCloses(n - 1, d - 1);
    }
  }

  /** A list leaves open exactly one element for each bad "ace" (see `IsBad`). */
  lemma {:induction false} ListNests(items: seq<Item>, open: nat, d: nat)
    requires Level(items, open) && open <= d
    ensures Nest(Emitted(items, open), d) == Some(d - open + Bad(items, open))
  {
    if items == [] {
      NestCloses(open, d);
    } else {
      var closes, rest := Before(items[0], open), Emitted(items[1..], After(items[0]));
      var e := if IsBad(items[0], open) then d else d - (open - items[0].depth);
      assert Nest(closes, d) == Some(e) by {
        if !IsBad(items[0], open) { NestCloses(open - items[0].depth, d); }
      }
      NestTogether(closes, [Print(items[0])] + rest, d);
      assert ([Print(items[0])] + rest)[1..] == rest;
      ListNests(items[1..], After(items[0]), if items[0].text != "" then e else e + 1);
    }
  }

  // ---------- what is written and what is meant ----------

  /** Two lists of tokens part at some place. */
  ghost predicate Part(a: seq<Token>, b: seq<Token>) {
    exists k: nat :: PartAt(a, b, k)
  }

  predicate PartAt(a: seq<Token>, b: seq<Token>, k: nat) {
    k < |a| && k < |b| && a[k] != b[k]
  }

  /** `written` lacks `n` tokens of what is meant: with none it is what is meant, else the two part. */
  ghost predicate Lacks(meant: seq<Token>, written: seq<Token>, n: nat) {
    |meant| == |written| + n && if n == 0 then meant == written else Part(meant, written)
  }

  lemma PartBefore(a: seq<Token>, b: seq<Token>, c: seq<Token>, d: seq<Token>)
    requires Part(a, b)
    ensures Part(a + c, b + d)
  {
    var k: nat :| PartAt(a, b, k);
    assert PartAt(a + c, b + d, k);
  }

  lemma PartBehind(a: seq<Token>, c: seq<Token>, d: seq<Token>)
    requires Part(c, d)
    ensures Part(a + c, a + d)
  {
    var k: nat :| PartAt(c, d, k);
    assert PartAt(a + c, a + d, |a| + k);
  }

  lemma LacksParts(a: seq<Token>, b: seq<Token>, m: nat, c: seq<Token>, d: seq<Token>, n: nat)
    requires Lacks(a, b, m) && Lacks(c, d, n)
    ensures Lacks(a + c, b + d, m + n)
  {
    if m > 0 {
      PartBefore(a, b, c, d);
    } else if n > 0 {
      PartBehind(a, c, d);
    }
  }

  /** A list lacks one end tag for each bad "ace". */
  lemma {:induction false} ListLacks(items: seq<Item>, open: nat)
    ensures Lacks(Meant(items, open), Emitted(items, open), Bad(items, open))
  {
    if items != [] {
      var own, n := [Print(items[0])], Bad(items[1..], After(items[0]));
      var meant, written := Meant(items[1..], After(items[0])), Emitted(items[1..], After(items[0]));
      ListLacks(items[1..], After(items[0]));
      LacksParts(own, own, 0, meant, written, n);
      if IsBad(items[0], open) {
        assert Closes(1) == [Close];
        assert PartAt(Meant(items, open), Emitted(items, open), 0);
      } else {
        LacksParts(Before(items[0], open), Before(items[0], open), 0, own + meant, own + written, n);
      }
    }
  }

  /** For each element, the number of elements it stands in. */
  function Standing(tokens: seq<Token>, d: nat): seq<nat> {
    if tokens == [] then []
    else
      match tokens[0]
      case Open(_) => [d] + Standing(tokens[1..], d + 1)
      case Text(_, _) => [d] + Standing(tokens[1..], d)
      case Close => Standing(tokens[1..], if d == 0 then 0 else d - 1)
  }

  /** For each item, the number of elements it should stand in, below `base` elements. */
  function Depths(items: seq<Item>, base: nat): seq<nat> {
    seq(|items|, i requires 0 <= i < |items| => base + items[i].depth)
  }

  lemma {:induction false} StandingBehindCloses(n: nat, tokens: seq<Token>, d: nat)
    requires n <= d
    ensures Standing(Closes(n) + tokens, d) == Standing(tokens, d - n)
  {
    if n == 0 {
      assert Closes(0) + tokens == tokens;
    } else {
      assert (Closes(n) + tokens)[1..] == Closes(n - 1) + tokens;
      StandingBehindCloses(n - 1, tokens, d - 1);
    }
  }

  lemma StandingFirst(item: Item, rest: seq<Token>, base: nat)
    ensures Standing([Print(item)] + rest, base + item.depth) ==
      [base + item.depth] + Standing(rest, base + After(item))
  {
    assert ([Print(item)] + rest)[1..] == rest;
  }

  /** In what is meant every item stands at its depth. */
  lemma {:induction false} MeantStands(items: seq<Item>, open: nat, base: nat)
    requires Level(items, open)
    ensures Standing(Meant(items, open), base + open) == Depths(items, base)
  {
    if items == [] {
      StandingBehindCloses(open, [], base + open);
      assert Closes(open) + [] == Closes(open);
    } else {
      var rest := Meant(items[1..], After(items[0]));
      StandingBehindCloses(open - items[0].depth, [Print(items[0])] + rest, base + open);
      StandingFirst(items[0], rest, base);
      MeantStands(items[1..], After(items[0]), base);
    }
  }

  /** In what is written every item stands at its depth just when no "ace" follows an item of its depth. */
  lemma {:induction false} WrittenStands(items: seq<Item>, open: nat, base: nat)
    requires Level(items, open)
    ensures Standing(Emitted(items, open), base + open) == Depths(items, base) <==> Bad(items, open) == 0
  {
    if Bad(items, open) == 0 {
      ListLacks(items, open);
      MeantStands(items, open, base);
    } else {
      var rest := Emitted(items[1..], After(items[0]));
      if IsBad(items[0], open) {
        assert Emitted(items, open) == [Print(items[0])] + rest;
        assert Depths(items, base)[0] != Standing(Emitted(items, open), base + open)[0];
      } else {
        StandingBehindCloses(open - items[0].depth, [Print(items[0])] + rest, base + open);
        StandingFirst(items[0], rest, base);
        WrittenStands(items[1..], After(items[0]), base);
        assert Depths(items, base)[1..] == Depths(items[1..], base);
      }
    }
  }

  /** Two elements "ace" side by side: the second is written inside the first. */
  lemma AceMisnests() returns (items: seq<Item>)
    ensures items == [Item(Name("DAV:", "ace"), "", 0), Item(Name("DAV:", "ace"), "", 0)]
    ensures Level(items, 0) && Bad(items, 0) == 1 && Depths(items, 0) == [0, 0]
    ensures Standing(Emitted(items, 0), 0) == [0, 1] && Nest(Emitted(items, 0), 0) == Some(1)
  {
    var ace := Item(Name("DAV:", ACE), "", 0);
    items := [ace, ace];
    var tail := [Open(ace.name), Close];
    var tokens := [Open(ace.name)] + tail;
    assert items[1..] == [ace] && [ace][1..] == [];
    assert Bad([], 1) == 0 && Bad([ace], 1) == 1 && Level([], 1) && Level([ace], 1);
    assert Closes(0) == [] && Closes(1) == [Close];
    assert Emitted([ace], 1) == tail && Emitted(items, 0) == tokens;
    assert tokens[1..] == tail && tail[1..] == [Close] && [Close][1..] == [];
    assert Nest([Close], 2) == Nest([], 1) == Some(1) && Nest(tail, 1) == Nest([Close], 2);
    assert Standing([Close], 2) == Standing([], 1) == [] && Standing(tail, 1) == [1] + Standing([Close], 2);
  }

  /** The list of a forest is written as the forest just when it has no such "ace". */
  lemma ForestWritten(f: seq<Tree>)
    requires Texts(f)
    ensures Meant(Preorder(f, 0), 0) == Rendered(f)
    ensures Emitted(Preorder(f, 0), 0) == Rendered(f) <==> Bad(Preorder(f, 0), 0) == 0
  {
    ForestMeant(f, 0, [], 0);
    assert Preorder(f, 0) + [] == Preorder(f, 0);
    ListLacks(Preorder(f, 0), 0);
  }

  lemma {:induction false} NothingBad(items: seq<Item>, open: nat)
    requires forall item :: item in items ==> item.name.prop != ACE
    ensures Bad(items, open) == 0
  {
    if items != [] {
      assert items[0] in items;
      NothingBad(items[1..], After(items[0]));
    }
  }

  /** A forest without "ace" and without text at the top: written as itself, nothing left open. */
  lemma PlainForest(f: seq<Tree>)
    requires Texts(f) && RootsAreNodes(f) && forall item :: item in Preorder(f, 0) ==> item.name.prop != ACE
    ensures Emitted(Preorder(f, 0), 0) == Rendered(f)
    ensures Level(Preorder(f, 0), 0) && Bad(Preorder(f, 0), 0) == 0
    ensures forall d: nat :: Nest(Rendered(f), d) == Some(d)
  {
    ForestWritten(f);
    ForestLevel(f, 0, [], 0);
    assert Preorder(f, 0) + [] == Preorder(f, 0);
    NothingBad(Preorder(f, 0), 0);
    forall d: nat ensures Nest(Rendered(f), d) == Some(d) {
      ListNests(Preorder(f, 0), 0, d);
    }
  }
}
