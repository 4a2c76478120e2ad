/**
 Reference counted objects that keep their parents alive.  The graph of live objects is a
 forest; what a destruction does to it is stated on its value, `Graph`.
 */
module ObjectGraph {
  class Unknown {
    var refs: int
    var children: seq<Unknown>
    var parent: Unknown?

    constructor ()
      ensures refs == 0 && children == [] && parent == null
    {
      refs, children, parent := 0, [], null;
    }

    /** One more holder. */
    method AddRef(ghost w: World) returns (count: int)
      requires w.Valid() && this in w.live
      modifies this`refs
      ensures w.Valid() && count == refs == old(refs) + 1
      ensures Snap(w.live) == Counted(old(Snap(w.live)), this, refs)
    {
      ghost var g := Snap(w.live);
      refs := refs + 1;
      count := refs;
      assert Snap(w.live) == Counted(g, this, refs);
      CountedForest(g, this, refs, w.rank, w.depth);
    }

    /** One holder less; without holders and children the object destroys itself. */
    method Release(ghost w: World) returns (count: int)
      requires w.Valid() && this in w.live && refs > 0
      modifies w, w.live
      ensures w.Valid() && count == old(refs) - 1 && w.live <= old(w.live)
      ensures Snap(w.live) == Released(old(Snap(w.live)), this)
      ensures ReleaseDone(old(Snap(w.live)), this, Snap(w.live))
    {
      ghost var g := Snap(w.live);
      refs := refs - 1;
      count := refs;
      var last := children == [] && refs == 0;
      assert Snap(w.live) == Counted(g, this, refs);
      CountedForest(g, this, refs, w.rank, w.depth);
      if last {
        DestroyWorks(Snap(w.live), this, w.rank, w.depth);
        Suicide(w);
      }
    }

    /** Destroys the other, then tells its parent. */
    method Suicide(ghost w: World)
      requires w.Valid() && this in w.live && refs == 0 && children == []
      modifies w, w.live
      ensures w.live <= old(w.live) && Snap(w.live) == Destroy(old(Snap(w.live)), this)
      ensures w.rank == old(w.rank) && w.depth == old(w.depth)
      decreases w.live, 0
    {
      ghost var g := Snap(w.live);
      assert CellOf(this) == g[this];
      var above := parent;
      parent := null;
      w.live := w.live - {this};
      assert Snap(w.live) == g - {this};
      if above != null {
        ChildOut(g, this, w.rank, w.depth);
        assert CellOf(above) == g[above];
        var found := above.RemoveChild(this, w);
      }
    }

    /** The loop over the children. */
    method FindChild(child: Unknown) returns (i: nat)
      ensures i <= |children| && child !in children[..i] && (i < |children| <==> child in children)
      ensures i < |children| ==> children[i] == child
    {
      i := 0;
      while i < |children| && children[i] != child
        invariant i <= |children| && child !in children[..i]
      {
        i := i + 1;
      }
      assert children[..|children|] == children;
    }

    /** Forgets a child that was destroyed; `found` unless it was not listed. */
    method RemoveChild(child: Unknown, ghost w: World) returns (found: bool)
      requires this in w.live && Forest(WithoutChild(Snap(w.live), this, child), w.rank, w.depth)
      modifies w, w.live
      ensures found == (child in old(children)) && w.live <= old(w.live)
      ensures Snap(w.live) == if found then Drop(old(Snap(w.live)), this, child) else old(Snap(w.live))
      ensures w.rank == old(w.rank) && w.depth == old(w.depth)
      decreases w.live, 1
    {
      ghost var g := Snap(w.live);
      assert CellOf(this) == g[this];
      var i := FindChild(child);
      if i == |children| {
        return false;
      }
      EraseAt(children, i, child);
      children := children[..i] + children[i + 1..];
      assert Snap(w.live) == WithoutChild(g, this, child);
      var last := children == [] && refs == 0;
      if last {
        Suicide(w);
      }
      found := true;
    }

    /** Hangs a child below this object; a child has one parent in its life. */
    method AddChild(child: Unknown?, ghost w: World)
      requires w.Valid() && this in w.live
      requires child != null ==>
        child in w.live && child.parent == null && child != this && !Above(Snap(w.live), w.rank, w.depth, child, this)
      modifies w`rank, w`depth, w.live`children, w.live`parent
      ensures w.Valid() && w.live == old(w.live)
      ensures Snap(w.live) == if child == null then old(Snap(w.live)) else Hung(old(Snap(w.live)), this, child)
    {
      if child != null {
        AddOne(child, w);
      }
    }

    method AddOne(child: Unknown, ghost w: World)
      requires w.Valid() && this in w.live && child in w.live && child != this
      requires child.parent == null && !Above(Snap(w.live), w.rank, w.depth, child, this)
      modifies w`rank, w`depth, this`children, child`parent
      ensures w.Valid() && Snap(w.live) == Hung(old(Snap(w.live)), this, child)
    {
      ghost var g := Snap(w.live);
      assert CellOf(child) == g[child];
      HungForest(g, this, child, w.rank, w.depth);
      w.rank, w.depth := Lowered(g, this, child, w.rank, w.depth), w.depth + w.depth + 1;
      assert Snap(w.live) == g;
      Attach(child, w);
      assert Snap(w.live) == Hung(g, this, child);
    }

    method Attach(child: Unknown, ghost w: World)
      requires this in w.live && child in w.live && child != this
      modifies this`children, child`parent
      ensures Snap(w.live) == Hung(old(Snap(w.live)), this, child)
    {
      ghost var g := Snap(w.live);
      assert CellOf(this) == g[this] && CellOf(child) == g[child];
      children := children + [child];
      child.parent := this;
      assert Snap(w.live) == Hung(g, this, child);
    }

    /** Walks up from `other`. */
    method IsParentOf(other: Unknown?, ghost w: World) returns (yes: bool)
      requires w.Valid() && (other == null || other in w.live)
      ensures yes == (other != null && Above(Snap(w.live), w.rank, w.depth, this, other))
    {
      var o := other;
      ghost var g := Snap(w.live);
      while o != null && o.parent != null
        invariant o != null ==> o in w.live && other != null
        invariant o != null ==> (Above(g, w.rank, w.depth, this, other) <==> Above(g, w.rank, w.depth, this, o))
        invariant o == null ==> other == null
        decreases if o == null then 0 else w.rank[o] + 1
      {
        assert CellOf(o) == g[o] && UnderParent(g, o) && InRank(g, w.rank, w.depth, o);
        assert InRank(g, w.rank, w.depth, o.parent);
        if o.parent == this {
          return true;
        }
        o := o.parent;
      }
      yes := false;
      if o != null {
        assert CellOf(o) == g[o];
      }
    }

    /** Searches downwards from `other`. */
    method IsChildOf(other: Unknown?, ghost w: World) returns (yes: bool)
      requires w.Valid() && this in w.live && (other == null || other in w.live)
      ensures yes == (other != null && Above(Snap(w.live), w.rank, w.depth, other, this))
      decreases if other in w.rank then w.depth - w.rank[other] else 0
    {
      if other == null {
        return false;
      }
      ghost var g := Snap(w.live);
      assert CellOf(other) == g[other] && OverChildren(g, other) && InRank(g, w.rank, w.depth, other);
      var i := 0;
      while i < |other.children|
        invariant i <= |other.children|
        invariant forall k :: 0 <= k < i ==>
          g[other].children[k] != this && !Above(g, w.rank, w.depth, g[other].children[k], this)
      {
        var c := other.children[i];
        assert c in g[other].children && InRank(g, w.rank, w.depth, c);
        if this == c {
          AboveChild(g, w.rank, w.depth, other, c, this);
          return true;
        }
        var below := this.IsChildOf(c, w);
        if below {
          AboveChild(g, w.rank, w.depth, other, c, this);
          return true;
        }
        i := i + 1;
      }
      yes := false;
      AboveSomeChild(g, w.rank, w.depth, other, this);
    }
  }

  /** The objects not yet destroyed, with a ranking that shows they form a forest. */
  class World {
    ghost var live: set<Unknown>
    ghost var rank: map<Unknown, nat>
    ghost var depth: nat

    ghost predicate Valid()
      reads this, live
    {
      Forest(Snap(live), rank, depth)
    }

    constructor ()
      ensures Valid() && live == {}
    {
      live, rank, depth := {}, map[], 0;
    }

    /** A new object, without references, parent or children. */
    method Create() returns (o: Unknown)
      requires Valid()
      modifies this
      ensures Valid() && fresh(o) && live == old(live) + {o} && Snap(live) == Born(old(Snap(live)), o)
    {
      ghost var g := Snap(live);
      o := new Unknown();
      BornForest(g, o, rank, depth);
      live, rank, depth := live + {o}, rank[o := 0], depth + 1;
      assert Snap(live) == Born(g, o);
    }
  }

  ghost function Born(g: Graph, o: Unknown): Graph {
    g[o := Cell(0, [], null)]
  }

  lemma BornForest(g: Graph, o: Unknown, rank: map<Unknown, nat>, depth: nat)
    requires Forest(g, rank, depth) && o !in g
    ensures Forest(Born(g, o), rank[o := 0], depth + 1)
  {
    var h := Born(g, o);
    forall x | x in h ensures UnderParent(h, x) && OverChildren(h, x) && InRank(h, rank[o := 0], depth + 1, x) {
      if x != o {
        assert UnderParent(g, x) && OverChildren(g, x) && InRank(g, rank, depth, x);
      }
    }
  }

  ghost function Counted(g: Graph, o: Unknown, refs: int): Graph
    requires o in g
  {
    g[o := g[o].(refs := refs)]
  }

  lemma CountedForest(g: Graph, o: Unknown, refs: int, rank: map<Unknown, nat>, depth: nat)
    requires Forest(g, rank, depth) && o in g
    ensures Forest(Counted(g, o, refs), rank, depth)
  {
    var h := Counted(g, o, refs);
    forall x | x in h ensures UnderParent(h, x) && OverChildren(h, x) && InRank(h, rank, depth, x) {
      assert UnderParent(g, x) && OverChildren(g, x) && InRank(g, rank, depth, x);
    }
  }

  /** `a` is an ancestor of `x`. */
  ghost predicate Above(g: Graph, rank: map<Unknown, nat>, depth: nat, a: Unknown, x: Unknown)
    requires Forest(g, rank, depth) && x in g
    decreases if x in rank then rank[x] else 0
  {
    var p := g[x].parent;
    p != null && (p == a || (Climbs(g, rank, depth, x); Above(g, rank, depth, a, p)))
  }

  lemma Climbs(g: Graph, rank: map<Unknown, nat>, depth: nat, x: Unknown)
    requires Forest(g, rank, depth) && x in g && g[x].parent != null
    ensures var p := g[x].parent; p in g && x in rank && p in rank && rank[p] < rank[x] && x in g[p].children
  {
    assert UnderParent(g, x) && InRank(g, rank, depth, x) && InRank(g, rank, depth, g[x].parent);
  }

  /** What is at or below a child is below its parent. */
  lemma {:induction false} AboveChild(g: Graph, rank: map<Unknown, nat>, depth: nat, a: Unknown, c: Unknown, x: Unknown)
    requires Forest(g, rank, depth) && a in g && c in g[a].children && x in g && (x == c || Above(g, rank, depth, c, x))
    ensures Above(g, rank, depth, a, x)
    decreases if x in rank then rank[x] else 0
  {
    assert OverChildren(g, a);
    if x != c {
      Climbs(g, rank, depth, x);
      AboveChild(g, rank, depth, a, c, g[x].parent);
    }
  }

  /** What is below an object is at or below one of its children. */
  lemma {:induction false} AboveSomeChild(g: Graph, rank: map<Unknown, nat>, depth: nat, a: Unknown, x: Unknown)
    requires Forest(g, rank, depth) && a in g && x in g
    ensures Above(g, rank, depth, a, x) ==>
      exists k :: 0 <= k < |g[a].children| &&
        (g[a].children[k] == x || (g[a].children[k] in g && Above(g, rank, depth, g[a].children[k], x)))
    decreases if x in rank then rank[x] else 0
  {
    assert OverChildren(g, a);
    if Above(g, rank, depth, a, x) {
      Climbs(g, rank, depth, x);
      var p := g[x].parent;
      if p == a {
        var k :| 0 <= k < |g[a].children| && g[a].children[k] == x;
      } else {
        AboveSomeChild(g, rank, depth, a, p);
        var k :| 0 <= k < |g[a].children| &&
          (g[a].children[k] == p || (g[a].children[k] in g && Above(g, rank, depth, g[a].children[k], p)));
        assert g[a].children[k] in g;
        assert Above(g, rank, depth, g[a].children[k], x);
      }
    }
  }

  /** The graph after `AddChild`. */
  ghost function Hung(g: Graph, p: Unknown, c: Unknown): Graph
    requires p in g && c in g && p != c
  {
    g[p := g[p].(children := g[p].children + [c])][c := g[c].(parent := p)]
  }

  /** A ranking for it: everything at or below the child goes below the rest. */
  ghost function Lowered(g: Graph, p: Unknown, c: Unknown, rank: map<Unknown, nat>, depth: nat): map<Unknown, nat>
    requires Forest(g, rank, depth)
  {
    map x | x in g && x in rank :: if x == c || Above(g, rank, depth, c, x) then rank[x] + depth + 1 else rank[x]
  }

  lemma {:induction false} OnceMore(s: seq<Unknown>, c: Unknown)
    requires Once(s) && c !in s
    ensures Once(s + [c])
  {
    if s != [] {
      OnceMore(s[1..], c);
      assert (s + [c])[1..] == s[1..] + [c];
    }
  }

  lemma HungForest(g: Graph, p: Unknown, c: Unknown, rank: map<Unknown, nat>, depth: nat)
    requires Forest(g, rank, depth) && p in g && c in g && p != c && g[c].parent == null && !Above(g, rank, depth, c, p)
    ensures Forest(Hung(g, p, c), Lowered(g, p, c, rank, depth), depth + depth + 1)
  {
    var h, low := Hung(g, p, c), Lowered(g, p, c, rank, depth);
    assert OverChildren(g, p);
    OnceMore(g[p].children, c);
    forall x | x in h ensures UnderParent(h, x) && OverChildren(h, x) && InRank(h, low, depth + depth + 1, x) {
      assert UnderParent(g, x) && OverChildren(g, x) && InRank(g, rank, depth, x);
      if x != c && g[x].parent != null {
        Climbs(g, rank, depth, x);
      }
    }
  }

  /** The graph after `Release`. */
  ghost function Released(g: Graph, o: Unknown): Graph
    requires o in g
  {
    var h := Counted(g, o, g[o].refs - 1);
    if h[o].refs == 0 && h[o].children == [] then Destroy(h, o) else h
  }

  /** What `Release` must do: destroy what nothing holds any more, and nothing else. */
  ghost predicate ReleaseDone(g: Graph, o: Unknown, r: Graph)
    requires o in g
  {
    var h := Counted(g, o, g[o].refs - 1);
    if h[o].refs == 0 && h[o].children == [] then Destroys(h, o, r) && StillHeld(h, r) else r == h
  }

  lemma {:induction false} EraseAt(s: seq<Unknown>, i: nat, c: Unknown)
    requires i < |s| && s[i] == c && c !in s[..i]
    ensures Erase(s, c) == s[..i] + s[i + 1..]
  {
    if i > 0 {
      assert s[0] == s[..i][0] && s[0] != c;
      assert s[1..][..i - 1] == s[..i][1..];
      EraseAt(s[1..], i - 1, c);
    }
  }

  datatype Cell = Cell(refs: int, children: seq<Unknown>, parent: Unknown?)

  /** The live objects. */
  type Graph = map<Unknown, Cell>

  ghost function CellOf(o: Unknown): Cell
    reads o
  {
    Cell(o.refs, o.children, o.parent)
  }

  ghost function Snap(live: set<Unknown>): Graph
    reads live
  {
    map o | o in live :: CellOf(o)
  }

  ghost predicate Once(s: seq<Unknown>) {
    s == [] || (s[0] !in s[1..] && Once(s[1..]))
  }

  ghost predicate UnderParent(g: Graph, o: Unknown)
    requires o in g
  {
    g[o].parent == null || (g[o].parent in g && o in g[g[o].parent].children)
  }

  ghost predicate OverChildren(g: Graph, o: Unknown)
    requires o in g
  {
    Once(g[o].children) && forall c :: c in g[o].children ==> c in g && g[c].parent == o
  }

  /** Every live child has a live parent that lists it once, and the other way round. */
  ghost predicate Linked(g: Graph) {
    forall o :: o in g ==> UnderParent(g, o) && OverChildren(g, o)
  }

  /** Parents are nearer to the top than their children. */
  ghost predicate Ranked(g: Graph, rank: map<Unknown, nat>, depth: nat) {
    forall o :: o in g ==> InRank(g, rank, depth, o)
  }

  ghost predicate InRank(g: Graph, rank: map<Unknown, nat>, depth: nat, o: Unknown)
    requires o in g
  {
    o in rank && rank[o] < depth && (g[o].parent in g && g[o].parent in rank ==> rank[g[o].parent] < rank[o])
  }

  ghost predicate Forest(g: Graph, rank: map<Unknown, nat>, depth: nat) {
    Linked(g) && Ranked(g, rank, depth)
  }

  /** The first occurrence is taken out. */
  function Erase(s: seq<Unknown>, c: Unknown): (r: seq<Unknown>)
    ensures c !in s ==> r == s
    ensures c in s ==> |r| == |s| - 1
  {
    if s == [] then [] else if s[0] == c then s[1..] else [s[0]] + Erase(s[1..], c)
  }

  lemma {:induction false} EraseOnce(s: seq<Unknown>, c: Unknown)
    requires Once(s)
    ensures Once(Erase(s, c)) && forall x :: x in Erase(s, c) <==> x in s && x != c
  {
    if s != [] {
      assert s == [s[0]] + s[1..];
      if s[0] != c {
        EraseOnce(s[1..], c);
        assert Erase(s, c)[1..] == Erase(s[1..], c);
      }
    }
  }

  lemma EraseMember(s: seq<Unknown>, c: Unknown, x: Unknown)
    requires Once(s)
    ensures x in Erase(s, c) <==> x in s && x != c
  {
    EraseOnce(s, c);
  }

  // ---------- destruction ----------

  /** An object goes; its parent loses a child. */
  ghost function Destroy(g: Graph, o: Unknown): (r: Graph)
    requires o in g
    ensures r.Keys <= g.Keys - {o}
    decreases g.Keys, 0
  {
    var p, h := g[o].parent, g - {o};
    if p == null || p !in h then h else Drop(h, p, o)
  }

  /** A child goes from a list; the object follows when nothing holds it any more. */
  ghost function Drop(g: Graph, p: Unknown, c: Unknown): (r: Graph)
    requires p in g
    ensures r.Keys <= g.Keys
    decreases g.Keys, 1
  {
    var h := WithoutChild(g, p, c);
    if h[p].children == [] && h[p].refs == 0 then Destroy(h, p) else h
  }

  ghost function WithoutChild(g: Graph, p: Unknown, c: Unknown): Graph
    requires p in g
  {
    g[p := g[p].(children := Erase(g[p].children, c))]
  }

  /** The members of a list that are not in `dead`. */
  function Survivors(s: seq<Unknown>, dead: set<Unknown>): seq<Unknown> {
    if s == [] then [] else (if s[0] in dead then [] else [s[0]]) + Survivors(s[1..], dead)
  }

  /**
   What a destruction of `o` must do: it takes along exactly the parents without references
   whose only child went, and takes the dead out of the lists of the others.
   */
  ghost predicate Destroys(g: Graph, o: Unknown, r: Graph) {
    && r.Keys <= g.Keys
    && (forall x :: x in g ==>
      (x !in r <==> x == o || (g[x].refs == 0 && |g[x].children| == 1 && g[x].children[0] !in r)))
    && (forall x :: x in r ==> r[x] == g[x].(children := Survivors(g[x].children, g.Keys - r.Keys)))
  }

  /** Nothing is left behind that nobody holds: the object that stops the cascade is still held. */
  ghost predicate StillHeld(g: Graph, r: Graph) {
    forall x :: x in r ==> (x in g && r[x] == g[x]) || r[x].refs != 0 || r[x].children != []
  }

  lemma {:induction false} SurvivorsAll(s: seq<Unknown>, dead: set<Unknown>)
    requires forall x :: x in s ==> x !in dead
    ensures Survivors(s, dead) == s
  {
    if s != [] {
      SurvivorsAll(s[1..], dead);
    }
  }

  lemma {:induction false} SurvivorsButOne(s: seq<Unknown>, c: Unknown, dead: set<Unknown>)
    requires Once(s) && c in dead && forall x :: x in s && x in dead ==> x == c
    ensures Survivors(s, dead) == Erase(s, c)
  {
    if s != [] {
      assert s == [s[0]] + s[1..];
      if s[0] == c {
        SurvivorsAll(s[1..], dead);
      } else {
        SurvivorsButOne(s[1..], c, dead);
      }
    }
  }

  lemma {:induction false} SurvivorsSame(s: seq<Unknown>, a: set<Unknown>, b: set<Unknown>)
    requires forall x :: x in s ==> (x in a <==> x in b)
    ensures Survivors(s, a) == Survivors(s, b)
  {
    if s != [] {
      SurvivorsSame(s[1..], a, b);
    }
  }

  /** Taking out a childless object without a parent leaves a forest. */
  lemma RootOut(g: Graph, o: Unknown, rank: map<Unknown, nat>, depth: nat)
    requires Forest(g, rank, depth) && o in g && g[o].children == [] && g[o].parent == null
    ensures Forest(g - {o}, rank, depth)
  {
    var h := g - {o};
    forall x | x in h ensures UnderParent(h, x) && OverChildren(h, x) && InRank(h, rank, depth, x) {
      assert UnderParent(g, x) && OverChildren(g, x) && InRank(g, rank, depth, x);
    }
  }

  /** Taking out a childless object leaves a forest, once its parent has dropped it. */
  lemma ChildOut(g: Graph, o: Unknown, rank: map<Unknown, nat>, depth: nat)
    requires Forest(g, rank, depth) && o in g && g[o].children == [] && g[o].parent != null
    ensures g[o].parent in g - {o} && o in g[g[o].parent].children
    ensures Forest(WithoutChild(g - {o}, g[o].parent, o), rank, depth)
  {
    var p := g[o].parent;
    assert UnderParent(g, o) && InRank(g, rank, depth, o) && OverChildren(g, p) && InRank(g, rank, depth, p);
    EraseOnce(g[p].children, o);
    var h := WithoutChild(g - {o}, p, o);
    assert h.Keys == g.Keys - {o};
    assert forall c :: c in h ==> h[c].parent == g[c].parent;
    forall x | x in h ensures UnderParent(h, x) && OverChildren(h, x) && InRank(h, rank, depth, x) {
      assert UnderParent(g, x) && OverChildren(g, x) && InRank(g, rank, depth, x);
      forall c | c in h[x].children ensures c in h && h[c].parent == x {
        if x == p {
          EraseMember(g[p].children, o, c);
        } else {
          assert h[x] == g[x];
          assert c in g[x].children;
        }
      }
    }
  }

  /** A destruction does what it must, and leaves a forest. */
  lemma {:induction false} DestroyWorks(g: Graph, o: Unknown, rank: map<Unknown, nat>, depth: nat)
    requires Forest(g, rank, depth) && o in g && g[o].children == [] && g[o].refs == 0
    ensures Forest(Destroy(g, o), rank, depth) && Destroys(g, o, Destroy(g, o)) && StillHeld(g, Destroy(g, o))
    decreases g.Keys
  {
    var p := g[o].parent;
    if p == null {
      RootOut(g, o, rank, depth);
      OnlyItself(g, o, g - {o});
    } else {
      ChildOut(g, o, rank, depth);
      var h := WithoutChild(g - {o}, p, o);
      assert Destroy(g, o) == Drop(g - {o}, p, o);
      if h[p].children == [] && h[p].refs == 0 {
        DestroyWorks(h, p, rank, depth);
        OneMore(g, o, h, Destroy(h, p));
      } else {
        OnlyItself(g, o, h);
      }
    }
  }

  /** The cascade ends with `o` itself. */
  lemma OnlyItself(g: Graph, o: Unknown, r: Graph)
    requires Linked(g) && o in g && g[o].children == [] && g[o].refs == 0
    requires r == if g[o].parent == null then g - {o}
      else if g[o].parent in g - {o} then WithoutChild(g - {o}, g[o].parent, o) else map[]
    requires g[o].parent != null ==> g[o].parent in r && (r[g[o].parent].children != [] || r[g[o].parent].refs != 0)
    ensures Destroys(g, o, r) && StillHeld(g, r)
  {
    var p := g[o].parent;
    assert g.Keys - r.Keys == {o};
    forall x | x in r ensures r[x] == g[x].(children := Survivors(g[x].children, {o})) {
      OthersSurvive(g, o, x);
      assert r[x] == if x == p then g[x].(children := Erase(g[x].children, o)) else g[x];
    }
    forall x | x in g && x != o && |g[x].children| == 1 && g[x].children[0] == o ensures g[x].refs != 0 {
      OnlyChild(g, o, x);
    }
  }

  lemma OnlyChild(g: Graph, o: Unknown, x: Unknown)
    requires Linked(g) && o in g && x in g && |g[x].children| == 1 && g[x].children[0] == o
    ensures x == g[o].parent && Erase(g[x].children, o) == []
  {
    assert OverChildren(g, x);
  }

  lemma OthersSurvive(g: Graph, o: Unknown, x: Unknown)
    requires Linked(g) && o in g && x in g
    ensures Survivors(g[x].children, {o}) == if x == g[o].parent then Erase(g[x].children, o) else g[x].children
  {
    assert OverChildren(g, x);
    if x == g[o].parent {
      assert UnderParent(g, o);
      SurvivorsButOne(g[x].children, o, {o});
    } else {
      SurvivorsAll(g[x].children, {o});
    }
  }

  /** The cascade goes on with the parent of `o`; `h` is the graph without `o`. */
  lemma OneMore(g: Graph, o: Unknown, h: Graph, r: Graph)
    requires Linked(g) && o in g && g[o].children == [] && g[o].parent != null && g[o].parent in g - {o}
    requires h == WithoutChild(g - {o}, g[o].parent, o) && h[g[o].parent].children == [] && h[g[o].parent].refs == 0
    requires Destroys(h, g[o].parent, r) && StillHeld(h, r)
    ensures Destroys(g, o, r) && StillHeld(g, r)
  {
    var p := g[o].parent;
    assert h.Keys == g.Keys - {o};
    forall x | x in g && x != p && x != o ensures h[x] == g[x] && o !in g[x].children {
      assert OverChildren(g, x);
    }
    forall x | x in r ensures r[x] == g[x].(children := Survivors(g[x].children, g.Keys - r.Keys)) {
      SurvivorsSame(g[x].children, g.Keys - r.Keys, h.Keys - r.Keys);
    }
    LastChild(g[p].children, o);
  }

  lemma LastChild(s: seq<Unknown>, c: Unknown)
    requires Erase(s, c) == [] && s != []
    ensures |s| == 1 && s[0] == c
  {
  }

  // ---------- runs ----------

  datatype Step = Create(o: Unknown) | AddRef(o: Unknown) | Release(o: Unknown) | AddChild(p: Unknown, c: Unknown)

  /** The live objects at one time, with the ranking that shows they form a forest. */
  datatype Stage = Stage(graph: Graph, rank: map<Unknown, nat>, depth: nat)

  ghost predicate IsForest(s: Stage) {
    Forest(s.graph, s.rank, s.depth)
  }

  /** A child may be hung below an object that is not at or below it. */
  ghost predicate MayHang(s: Stage, p: Unknown, c: Unknown) {
    && p in s.graph && c in s.graph && p != c && s.graph[c].parent == null
    && (IsForest(s) ==> !Above(s.graph, s.rank, s.depth, c, p))
  }

  /** The stage behind one call; the ranking changes as in the methods. */
  ghost predicate Follows(s: Stage, step: Step, t: Stage) {
    var g := s.graph;
    match step
    case Create(o) => o !in g && t == Stage(Born(g, o), s.rank[o := 0], s.depth + 1)
    case AddRef(o) => o in g && t == s.(graph := Counted(g, o, g[o].refs + 1))
    case Release(o) => o in g && g[o].refs > 0 && t == s.(graph := Released(g, o))
    case AddChild(p, c) =>
      MayHang(s, p, c) && t.graph == Hung(g, p, c) && t.depth == s.depth + s.depth + 1 &&
      (IsForest(s) ==> t.rank == Lowered(g, p, c, s.rank, s.depth))
  }

  /** The stages of a run from nothing; `stages[i]` is the one before step `i`. */
  ghost predicate IsRun(stages: seq<Stage>, steps: seq<Step>) {
    && |stages| == |steps| + 1 && stages[0] == Stage(map[], map[], 0)
    && forall i :: 0 <= i < |steps| ==> Follows(stages[i], steps[i], stages[i + 1])
  }

  lemma ReleasedWorks(g: Graph, o: Unknown, rank: map<Unknown, nat>, depth: nat)
    requires Forest(g, rank, depth) && o in g
    ensures Forest(Released(g, o), rank, depth) && ReleaseDone(g, o, Released(g, o))
  {
    var h := Counted(g, o, g[o].refs - 1);
    CountedForest(g, o, g[o].refs - 1, rank, depth);
    if h[o].refs == 0 && h[o].children == [] {
      DestroyWorks(h, o, rank, depth);
    }
  }

  lemma StepAt(stages: seq<Stage>, steps: seq<Step>, n: nat)
    requires IsRun(stages, steps) && n < |steps|
    ensures Follows(stages[n], steps[n], stages[n + 1])
  {
  }

  lemma StepKeeps(s: Stage, step: Step, t: Stage)
    requires IsForest(s) && Follows(s, step, t)
    ensures IsForest(t)
  {
    match step
    case Create(o) => BornForest(s.graph, o, s.rank, s.depth);
    case AddRef(o) => CountedForest(s.graph, o, s.graph[o].refs + 1, s.rank, s.depth);
    case Release(o) => ReleasedWorks(s.graph, o, s.rank, s.depth);
    case AddChild(p, c) => HungForest(s.graph, p, c, s.rank, s.depth);
  }

  /** Two graphs differ at one object only. */
  ghost predicate OnlyAt(g: Graph, r: Graph, o: Unknown) {
    g.Keys - {o} == r.Keys - {o} && forall x :: x in g && x != o ==> x in r && r[x] == g[x]
  }

  /** What each call changes: holders, children and parents of the objects it is about, and of no others. */
  lemma StepMeans(s: Stage, step: Step, t: Stage)
    requires IsForest(s) && Follows(s, step, t)
    ensures step.Create? ==>
      OnlyAt(s.graph, t.graph, step.o) && step.o in t.graph && t.graph[step.o] == Cell(0, [], null)
    ensures step.AddRef? ==>
      && OnlyAt(s.graph, t.graph, step.o) && step.o in t.graph
      && t.graph[step.o] == s.graph[step.o].(refs := s.graph[step.o].refs + 1)
    ensures step.Release? && (s.graph[step.o].refs > 1 || s.graph[step.o].children != []) ==>
      && OnlyAt(s.graph, t.graph, step.o) && step.o in t.graph
      && t.graph[step.o] == s.graph[step.o].(refs := s.graph[step.o].refs - 1)
    ensures step.Release? && s.graph[step.o].refs == 1 && s.graph[step.o].children == [] ==>
      && step.o !in t.graph && t.graph.Keys <= s.graph.Keys
      && forall x :: x in t.graph ==> t.graph[x].refs == s.graph[x].refs && t.graph[x].parent == s.graph[x].parent
    ensures step.AddChild? ==>
      && t.graph.Keys == s.graph.Keys
      && (forall x :: x in s.graph && x != step.p && x != step.c ==> t.graph[x] == s.graph[x])
      && t.graph[step.p] == s.graph[step.p].(children := s.graph[step.p].children + [step.c])
      && t.graph[step.c] == s.graph[step.c].(parent := step.p)
  {
    if step.Release? {
      ReleasedWorks(s.graph, step.o, s.rank, s.depth);
    }
  }

  /** Every run of calls keeps the live objects a forest. */
  lemma {:induction false} RunKeeps(stages: seq<Stage>, steps: seq<Step>, n: nat)
    requires IsRun(stages, steps) && n < |stages|
    ensures IsForest(stages[n])
  {
    if n > 0 {
      RunKeeps(stages, steps, n - 1);
      StepAt(stages, steps, n - 1);
      StepKeeps(stages[n - 1], steps[n - 1], stages[n]);
    }
  }

  /** Objects that nobody has held yet: made, and neither referenced nor given a child since. */
  ghost function Newborn(steps: seq<Step>, n: nat): set<Unknown>
    requires n <= |steps|
  {
    if n == 0 then {} else StillNewborn(Newborn(steps, n - 1), steps[n - 1])
  }

  ghost function StillNewborn(newborn: set<Unknown>, step: Step): set<Unknown> {
    match step
    case Create(o) => newborn + {o}
    case AddRef(o) => newborn - {o}
    case Release(_) => newborn
    case AddChild(p, _) => newborn - {p}
  }

  /** References are never negative, and an object that nothing holds was not held before. */
  ghost predicate NoneLeft(g: Graph, newborn: set<Unknown>) {
    forall x :: x in g ==> g[x].refs >= 0 && (g[x].refs == 0 && g[x].children == [] ==> x in newborn)
  }

  lemma StepLeavesNone(s: Stage, step: Step, t: Stage, newborn: set<Unknown>)
    requires IsForest(s) && Follows(s, step, t) && NoneLeft(s.graph, newborn)
    ensures NoneLeft(t.graph, StillNewborn(newborn, step))
  {
    match step
    case Create(o) =>
    case AddRef(o) =>
    case Release(o) => ReleasedWorks(s.graph, o, s.rank, s.depth);
    case AddChild(p, c) =>
  }

  lemma NextLeavesNone(stages: seq<Stage>, steps: seq<Step>, n: nat, newborn: set<Unknown>)
    requires IsRun(stages, steps) && n < |steps| && NoneLeft(stages[n].graph, newborn)
    ensures NoneLeft(stages[n + 1].graph, StillNewborn(newborn, steps[n]))
  {
    RunKeeps(stages, steps, n);
    StepAt(stages, steps, n);
    StepLeavesNone(stages[n], steps[n], stages[n + 1], newborn);
  }

  /** No run leaves an object behind that was held once and that nothing holds any more. */
  lemma {:induction false} RunLeavesNone(stages: seq<Stage>, steps: seq<Step>, n: nat)
    requires IsRun(stages, steps) && n < |stages|
    ensures NoneLeft(stages[n].graph, Newborn(steps, n))
  {
    if n > 0 {
      RunLeavesNone(stages, steps, n - 1);
      NextLeavesNone(stages, steps, n - 1, Newborn(steps, n - 1));
    }
  }
}
