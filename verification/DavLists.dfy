/** The two fixed item lists: supported reports and privileges. */
module DavLists {
  import opened DavItems

  const DAV := "DAV:"

  function Dav(prop: string, depth: nat): Item {
    Item(Name(DAV, prop), "", depth)
  }

  function Element(prop: string, kids: seq<Tree>): Tree {
    Node(Name(DAV, prop), kids)
  }

  const REPORTS := ["acl-principal-prop-set", "principal-match", "principal-property-search", "expand-property"]
  const PRIVILEGES := ["all", "read-current-user-privilege-set", "read", "write", "write-content",
    "write-properties", "unlock", "read-acl", "bind", "unbind"]

  /** One report below another element for each of its names. */
  function ReportForest(names: seq<string>): seq<Tree> {
    if names == [] then []
    else [Element("supported-report", [Element("report", [Element(names[0], [])])])] + ReportForest(names[1..])
  }

  function PrivilegeForest(names: seq<string>): seq<Tree> {
    if names == [] then [] else [Element("privilege", [Element(names[0], [])])] + PrivilegeForest(names[1..])
  }

  lemma ReportStep(name: string, more: seq<Tree>)
    ensures Preorder([Element("supported-report", [Element("report", [Element(name, [])])])] + more, 0)
         == [Dav("supported-report", 0), Dav("report", 1), Dav(name, 2)] + Preorder(more, 0)
  {
    var top := Element("supported-report", [Element("report", [Element(name, [])])]);
    assert ([top] + more)[1..] == more;
    Single(Element(name, []), 2);
    Single(Element("report", [Element(name, [])]), 1);
    assert Preorder([], 3) == [];
  }

  lemma PrivilegeStep(name: string, more: seq<Tree>)
    ensures Preorder([Element("privilege", [Element(name, [])])] + more, 0)
         == [Dav("privilege", 0), Dav(name, 1)] + Preorder(more, 0)
  {
    assert ([Element("privilege", [Element(name, [])])] + more)[1..] == more;
    Single(Element(name, []), 1);
    assert Preorder([], 2) == [];
  }

  lemma Single(t: Tree, d: nat)
    ensures Preorder([t], d) == TreeItems(t, d)
  {
    assert [t][1..] == [];
  }

  /** The list of the reports, or privileges, from the `i`-th on. */
  function ReportsFrom(i: nat): seq<Item>
    requires i <= |REPORTS|
  {
    Preorder(ReportForest(REPORTS[i..]), 0)
  }

  function PrivilegesFrom(i: nat): seq<Item>
    requires i <= |PRIVILEGES|
  {
    Preorder(PrivilegeForest(PRIVILEGES[i..]), 0)
  }

  /** Three items for one report. */
  method PushReport(items: seq<Item>, i: nat) returns (r: seq<Item>)
    requires i < |REPORTS|
    ensures items + ReportsFrom(i) == r + ReportsFrom(i + 1)
  {
    ReportStep(REPORTS[i], ReportForest(REPORTS[i + 1..]));
    r := items + [Dav("supported-report", 0)];
    r := r + [Dav("report", 1)];
    r := r + [Dav(REPORTS[i], 2)];
  }

  /** Two items for one privilege. */
  method PushPrivilege(items: seq<Item>, i: nat) returns (r: seq<Item>)
    requires i < |PRIVILEGES|
    ensures items + PrivilegesFrom(i) == r + PrivilegesFrom(i + 1)
  {
    PrivilegeStep(PRIVILEGES[i], PrivilegeForest(PRIVILEGES[i + 1..]));
    r := items + [Dav("privilege", 0)];
    r := r + [Dav(PRIVILEGES[i], 1)];
  }

  /** The supported reports, as a list. */
  method BuildReportSet(items: seq<Item>) returns (r: seq<Item>)
    ensures r == items + Preorder(ReportForest(REPORTS), 0)
  {
    assert REPORTS[0..] == REPORTS;
    r := PushReport(items, 0);
    r := PushReport(r, 1);
    r := PushReport(r, 2);
    r := PushReport(r, 3);
    assert ReportsFrom(4) == [];
  }

  /** The privileges, as a list. */
  method BuildACL(items: seq<Item>) returns (r: seq<Item>)
    ensures r == items + Preorder(PrivilegeForest(PRIVILEGES), 0)
  {
    assert PRIVILEGES[0..] == PRIVILEGES;
    r := PushPrivilege(items, 0);
    r := PushPrivilege(r, 1);
    r := PushPrivilege(r, 2);
    r := PushPrivilege(r, 3);
    r := PushPrivilege(r, 4);
    r := PushPrivilege(r, 5);
    r := PushPrivilege(r, 6);
    r := PushPrivilege(r, 7);
    r := PushPrivilege(r, 8);
    r := PushPrivilege(r, 9);
    assert PrivilegesFrom(10) == [];
  }

  /** The names of the reports and privileges, in order. */
  lemma ListNames()
    ensures REPORTS == ["acl-principal-prop-set", "principal-match", "principal-property-search", "expand-property"]
    ensures PRIVILEGES[..5] == ["all", "read-current-user-privilege-set", "read", "write", "write-content"]
    ensures PRIVILEGES[5..] == ["write-properties", "unlock", "read-acl", "bind", "unbind"]
  {
  }

  /** Three items for every report, with the depths that nest them. */
  lemma {:induction false} ReportsAt(names: seq<string>, i: nat)
    requires i < |names|
    ensures var items := Preorder(ReportForest(names), 0);
      && |items| == 3 * |names| && items[3 * i] == Item(Name("DAV:", "supported-report"), "", 0)
      && items[3 * i + 1] == Item(Name("DAV:", "report"), "", 1)
      && items[3 * i + 2] == Item(Name("DAV:", names[i]), "", 2)
    decreases |names|
  {
    var first := [Dav("supported-report", 0), Dav("report", 1), Dav(names[0], 2)];
    var rest := Preorder(ReportForest(names[1..]), 0);
    ReportStep(names[0], ReportForest(names[1..]));
    assert Preorder(ReportForest(names), 0) == first + rest;
    if |names| > 1 {
      ReportsAt(names[1..], if i > 0 then i - 1 else 0);
      ItemsBehind(first, rest);
    } else {
      assert names[1..] == [];
    }
  }

  /** Two items for every privilege. */
  lemma {:induction false} PrivilegesAt(names: seq<string>, i: nat)
    requires i < |names|
    ensures var items := Preorder(PrivilegeForest(names), 0);
      && |items| == 2 * |names| && items[2 * i] == Item(Name("DAV:", "privilege"), "", 0)
      && items[2 * i + 1] == Item(Name("DAV:", names[i]), "", 1)
    decreases |names|
  {
    var first := [Dav("privilege", 0), Dav(names[0], 1)];
    var rest := Preorder(PrivilegeForest(names[1..]), 0);
    PrivilegeStep(names[0], PrivilegeForest(names[1..]));
    assert Preorder(PrivilegeForest(names), 0) == first + rest;
    if |names| > 1 {
      PrivilegesAt(names[1..], if i > 0 then i - 1 else 0);
      ItemsBehind(first, rest);
    } else {
      assert names[1..] == [];
    }
  }

  lemma ItemsBehind(first: seq<Item>, rest: seq<Item>)
    ensures forall j :: |first| <= j < |first| + |rest| ==> (first + rest)[j] == rest[j - |first|]
  {
  }

  lemma {:induction false} ForestsPlain(names: seq<string>)
    requires ACE !in names
    ensures Texts(ReportForest(names)) && RootsAreNodes(ReportForest(names))
    ensures Texts(PrivilegeForest(names)) && RootsAreNodes(PrivilegeForest(names))
    ensures forall item :: item in Preorder(ReportForest(names), 0) ==> item.name.prop != ACE
    ensures forall item :: item in Preorder(PrivilegeForest(names), 0) ==> item.name.prop != ACE
  {
    if names != [] {
      ForestsPlain(names[1..]);
      assert names[0] in names;
      var leaf := Element(names[0], []);
      TextMore(leaf, []);
      TextMore(Element("report", [leaf]), []);
      TextMore(Element("supported-report", [Element("report", [leaf])]), ReportForest(names[1..]));
      TextMore(Element("privilege", [leaf]), PrivilegeForest(names[1..]));
      ReportStep(names[0], ReportForest(names[1..]));
      PrivilegeStep(names[0], PrivilegeForest(names[1..]));
      assert |ACE| != |"supported-report"| && |ACE| != |"report"| && |ACE| != |"privilege"|;
    }
  }

  lemma TextMore(t: Tree, f: seq<Tree>)
    requires TextTree(t) && Texts(f)
    ensures Texts([t] + f) && Texts([t])
  {
    assert ([t] + f)[1..] == f && [t][1..] == [];
  }

  /** Both lists are written as the forests they stand for. */
  lemma BothListsNest()
    ensures Emitted(Preorder(ReportForest(REPORTS), 0), 0) == Rendered(ReportForest(REPORTS))
    ensures Emitted(Preorder(PrivilegeForest(PRIVILEGES), 0), 0) == Rendered(PrivilegeForest(PRIVILEGES))
    ensures Level(Preorder(ReportForest(REPORTS), 0), 0) && Level(Preorder(PrivilegeForest(PRIVILEGES), 0), 0)
    ensures Bad(Preorder(ReportForest(REPORTS), 0), 0) == 0 && Bad(Preorder(PrivilegeForest(PRIVILEGES), 0), 0) == 0
  {
    NoAce();
    ForestsPlain(REPORTS);
    ForestsPlain(PRIVILEGES);
    PlainForest(ReportForest(REPORTS));
    PlainForest(PrivilegeForest(PRIVILEGES));
  }

  lemma NoAce()
    ensures ACE !in REPORTS && ACE !in PRIVILEGES
  {
    forall i | 0 <= i < |REPORTS| ensures REPORTS[i] != ACE {
      assert |REPORTS[i]| != |ACE|;
    }
    forall i | 0 <= i < |PRIVILEGES| ensures PRIVILEGES[i] != ACE {
      assert |PRIVILEGES[i]| != |ACE| || PRIVILEGES[i][1] == 'l';
    }
  }
}
