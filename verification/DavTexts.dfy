/** What a reader finds in a written document: its texts, in order, and one document in full. */
module DavTexts {
  import opened DavItems
  import opened DavWriter

  /** The texts among some tokens, with their names. */
  function TextsOf(tokens: seq<Token>): seq<Value> {
    if tokens == [] then []
    else
      (match tokens[0]
       case Text(name, text) => [Value(name, text)]
       case _ => []) + TextsOf(tokens[1..])
  }

  lemma {:induction false} TextsTogether(a: seq<Token>, b: seq<Token>)
    ensures TextsOf(a + b) == TextsOf(a) + TextsOf(b)
    decreases |a|
  {
    if a == [] {
      assert a + b == b;
    } else {
      assert (a + b)[1..] == a[1..] + b && (a + b)[0] == a[0];
      TextsTogether(a[1..], b);
    }
  }

  lemma ElementTexts(name: Name, inner: seq<Token>)
    ensures TextsOf(Element(name, inner)) == TextsOf(inner)
  {
    TextsTogether([Open(name)], inner);
    TextsTogether([Open(name)] + inner, [Close]);
    assert [Open(name)][1..] == [] && [Close][1..] == [];
  }

  lemma OneText(name: Name, text: string)
    ensures TextsOf([Text(name, text)]) == [Value(name, text)]
  {
    assert [Text(name, text)][1..] == [];
  }

  lemma {:induction false} ClosesTexts(n: nat)
    ensures TextsOf(Closes(n)) == []
  {
    if n > 0 {
      ClosesTexts(n - 1);
      assert Closes(n)[1..] == Closes(n - 1);
    }
  }

  // ---------- what there is to write ----------

  /** Those of some values that have a text. */
  function Texty(vs: seq<Value>): seq<Value> {
    if vs == [] then [] else (if vs[0].text == "" then [] else [vs[0]]) + Texty(vs[1..])
  }

  function ItemValues(items: seq<Item>): seq<Value> {
    if items == [] then [] else [Value(items[0].name, items[0].text)] + ItemValues(items[1..])
  }

  /** The texts of some properties: each its own, those of its items where they are written, those of its values. */
  function PropertyTexts(ps: seq<Property>, withItems: bool): seq<Value> {
    if ps == [] then []
    else
      var items := if withItems then ItemValues(ps[0].items) else [];
      Texty([Value(ps[0].name, ps[0].text)]) + Texty(items) + Texty(ps[0].values) + PropertyTexts(ps[1..], withItems)
  }

  function StatTexts(ss: seq<PropStat>): seq<Value> {
    if ss == [] then [] else PropertyTexts(ss[0].props, true) + [ss[0].status] + StatTexts(ss[1..])
  }

  /** A value whose name is missing is not there. */
  function Named(v: Value): seq<Value> {
    if v.name.prop == "" then [] else [v]
  }

  /** The texts of a document: for each response its link, its status, the property statuses, and the properties. */
  function ResponseTexts(rs: seq<Response>): seq<Value> {
    if rs == [] then []
    else
      Named(rs[0].href) + Named(rs[0].status) + StatTexts(rs[0].propStats) + PropertyTexts(rs[0].props, false) +
      ResponseTexts(rs[1..])
  }

  // ---------- what is written ----------

  lemma {:induction false} ItemsTexts(items: seq<Item>, open: nat, m: Manner)
    ensures TextsOf(if m.AsMeant? then Meant(items, open) else Emitted(items, open)) == Texty(ItemValues(items))
    decreases |items|
  {
    if items == [] {
      ClosesTexts(open);
    } else {
      var first, more := items[0], items[1..];
      var closes := if m.AsMeant? then Closes(Below(first, open)) else DavItems.Before(first, open);
      var rest := if m.AsMeant? then Meant(more, After(first)) else Emitted(more, After(first));
      ItemsTexts(more, After(first), m);
      ClosesTexts(Below(first, open));
      TextsTogether(closes, [Print(first)] + rest);
      TextsTogether([Print(first)], rest);
      assert [Print(first)][1..] == [];
      assert ItemValues(items)[1..] == ItemValues(more);
    }
  }

  lemma {:induction false} ValuesTexts(vs: seq<Value>)
    ensures TextsOf(PrintValues(vs)) == Texty(vs)
  {
    if vs != [] {
      ValuesTexts(vs[1..]);
      TextsTogether(PrintValue(vs[0]), PrintValues(vs[1..]));
      OneText(vs[0].name, vs[0].text);
      ElementTexts(vs[0].name, []);
    }
  }

  lemma PropertyText(p: Property, withItems: bool, m: Manner)
    ensures TextsOf(PrintProperty(p, withItems, m))
         == Texty([Value(p.name, p.text)]) + Texty(if withItems then ItemValues(p.items) else []) + Texty(p.values)
  {
    var items, values := ItemTokens(p, withItems, m), PrintValues(p.values);
    ItemsTexts(p.items, 0, m);
    assert TextsOf(items) == Texty(if withItems then ItemValues(p.items) else []);
    ValuesTexts(p.values);
    TextsTogether(items, values);
    OwnText(p.name, p.text, items + values);
    Together(Texty([Value(p.name, p.text)]), TextsOf(items), TextsOf(values));
  }

  /** A name with its text, or an element around what is inside. */
  lemma OwnText(name: Name, text: string, inner: seq<Token>)
    ensures TextsOf(if text != "" then [Text(name, text)] + inner else Element(name, inner))
         == Texty([Value(name, text)]) + TextsOf(inner)
  {
    TextsTogether([Text(name, text)], inner);
    OneText(name, text);
    ElementTexts(name, inner);
    assert [Value(name, text)][1..] == [];
  }

  lemma Together(a: seq<Value>, b: seq<Value>, c: seq<Value>)
    ensures a + (b + c) == a + b + c
  {
  }

  lemma {:induction false} PropertiesTexts(ps: seq<Property>, withItems: bool, m: Manner)
    ensures TextsOf(PrintProperties(ps, withItems, m)) == PropertyTexts(ps, withItems)
  {
    if ps != [] {
      PropertyText(ps[0], withItems, m);
      PropertiesTexts(ps[1..], withItems, m);
      TextsTogether(PrintProperty(ps[0], withItems, m), PrintProperties(ps[1..], withItems, m));
    }
  }

  lemma StatText(s: PropStat, m: Manner)
    ensures TextsOf(PrintPropStat(s, m)) == PropertyTexts(s.props, true) + [s.status]
  {
    var props := PrintProperties(s.props, true, m);
    PropertiesTexts(s.props, true, m);
    ElementTexts(s.prop, props);
    OneText(s.status.name, s.status.text);
    TextsTogether(Element(s.prop, props), [Text(s.status.name, s.status.text)]);
    ElementTexts(s.name, Element(s.prop, props) + [Text(s.status.name, s.status.text)]);
  }

  lemma {:induction false} StatsTexts(ss: seq<PropStat>, m: Manner)
    ensures TextsOf(PrintPropStats(ss, m)) == StatTexts(ss)
  {
    if ss != [] {
      StatText(ss[0], m);
      StatsTexts(ss[1..], m);
      TextsTogether(PrintPropStat(ss[0], m), PrintPropStats(ss[1..], m));
    }
  }

  lemma NamedText(v: Value)
    ensures TextsOf(PrintNamed(v)) == Named(v)
  {
    OneText(v.name, v.text);
  }

  lemma ResponseText(r: Response, m: Manner)
    ensures TextsOf(PrintResponse(r, m))
         == Named(r.href) + Named(r.status) + StatTexts(r.propStats) + PropertyTexts(r.props, false)
  {
    var a, b, c, d := PrintNamed(r.href), PrintNamed(r.status), PrintPropStats(r.propStats, m),
      PrintProperties(r.props, false, m);
    NamedText(r.href);
    NamedText(r.status);
    StatsTexts(r.propStats, m);
    PropertiesTexts(r.props, false, m);
    TextsTogether(a, b);
    TextsTogether(a + b, c);
    TextsTogether(a + b + c, d);
    ElementTexts(r.name, PrintBody(r, m));
  }

  lemma {:induction false} ResponsesTexts(rs: seq<Response>, m: Manner)
    ensures TextsOf(PrintResponses(rs, m)) == ResponseTexts(rs)
  {
    if rs != [] {
      ResponseText(rs[0], m);
      ResponsesTexts(rs[1..], m);
      TextsTogether(PrintResponse(rs[0], m), PrintResponses(rs[1..], m));
    }
  }

  /** A finished document has just the texts there are to write, under their names and in order. */
  lemma FinishedTexts(name: Name, rs: seq<Response>)
    ensures TextsOf(Finished(name, rs)) == ResponseTexts(rs)
  {
    ResponsesTexts(rs, AsWritten);
    ElementTexts(name, PrintResponses(rs));
    ClosesTexts(BadResponses(rs));
    TextsTogether(PrintDocument(name, rs), Closes(BadResponses(rs)));
  }

  // ---------- one document in full ----------

  function Dav(prop: string): Name {
    Name("DAV:", prop)
  }

  /** A property with an item and two values, one of them empty, and one with a text. */
  function SomeProperties(): seq<Property> {
    [Property(Dav("acl"), "", [Value(Dav("href"), "/a"), Value(Dav("all"), "")], [Item(Dav("item"), "", 0)]),
     Property(Dav("owner"), "me", [], [])]
  }

  function OneResponse(): Response {
    Response(Dav("response"), Value(Dav("href"), "/"), Value(Dav(""), "no"),
             [PropStat(Dav("propstat"), Dav("prop"), SomeProperties(), Value(Dav("status"), "ok"))],
             [Property(Dav("last"), "", [], [Item(Dav("item"), "", 0)])])
  }

  lemma SomePrinted()
    ensures PrintProperties(SomeProperties(), true) ==
      [Open(Dav("acl")), Open(Dav("item")), Close, Text(Dav("href"), "/a"), Open(Dav("all")), Close, Close,
       Text(Dav("owner"), "me")]
  {
    var ps := SomeProperties();
    var items, values := ps[0].items, ps[0].values;
    assert items[1..] == [] && Emitted([], 1) == Closes(1) == [Close] && Closes(0) == [];
    assert Emitted(items, 0) == [Open(Dav("item")), Close];
    assert values[1..][1..] == [] && PrintValues(values[1..]) == [Open(Dav("all")), Close];
    assert PrintValues(values) == [Text(Dav("href"), "/a"), Open(Dav("all")), Close];
    assert PrintProperty(ps[0], true) ==
      [Open(Dav("acl")), Open(Dav("item")), Close, Text(Dav("href"), "/a"), Open(Dav("all")), Close, Close];
    assert PrintProperty(ps[1], true) == [Text(Dav("owner"), "me")];
    assert ps[1..][1..] == [] && PrintProperties(ps[1..], true) == PrintProperty(ps[1], true);
  }

  lemma StatShape(a: Name, b: Name, props: seq<Token>, status: Token)
    ensures Element(a, Element(b, props) + [status]) == [Open(a), Open(b)] + props + [Close, status, Close]
  {
  }

  lemma DocumentShape(root: Name, name: Name, link: Token, front: seq<Token>, props: seq<Token>, back: seq<Token>,
                      last: seq<Token>)
    ensures Element(root, Element(name, [link] + [] + (front + props + back) + last))
         == [Open(root), Open(name), link] + front + props + back + last + [Close, Close]
  {
  }

  lemma PartsPrinted()
    ensures var r := OneResponse();
      && PrintNamed(r.href) == [Text(Dav("href"), "/")] && PrintNamed(r.status) == []
      && PrintPropStats(r.propStats, AsWritten) == PrintPropStat(r.propStats[0])
      && PrintProperties(r.props, false, AsWritten) == [Open(Dav("last")), Close]
  {
    var r := OneResponse();
    assert r.propStats[1..] == [] && r.props[1..] == [];
    assert PrintPropStats([], AsWritten) == [] && PrintProperties([], false, AsWritten) == [];
    assert PrintProperty(r.props[0], false, AsWritten) == [Open(Dav("last")), Close];
  }

  /** The link, no status without a name, the property status, and the property, whose item is not written. */
  lemma OnePrinted()
    ensures PrintDocument(Dav("multistatus"), [OneResponse()]) ==
      [Open(Dav("multistatus")), Open(Dav("response")), Text(Dav("href"), "/")] +
      [Open(Dav("propstat")), Open(Dav("prop"))] + PrintProperties(SomeProperties(), true) +
      [Close, Text(Dav("status"), "ok"), Close] + [Open(Dav("last")), Close] + [Close, Close]
  {
    var r := OneResponse();
    var props := PrintProperties(SomeProperties(), true);
    var front, back := [Open(Dav("propstat")), Open(Dav("prop"))], [Close, Text(Dav("status"), "ok"), Close];
    PartsPrinted();
    StatShape(Dav("propstat"), Dav("prop"), props, Text(Dav("status"), "ok"));
    assert PrintPropStat(r.propStats[0]) == front + props + back;
    assert [r][1..] == [] && PrintResponses([], AsWritten) == [];
    assert PrintResponses([r], AsWritten) == PrintResponse(r, AsWritten);
    DocumentShape(Dav("multistatus"), Dav("response"), Text(Dav("href"), "/"), front, props, back,
      [Open(Dav("last")), Close]);
  }
}
