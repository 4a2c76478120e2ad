/** Multi-status documents (section 13 of RFC 4918), written element by element. */
module DavWriter {
  import opened Options
  import opened DavItems

  datatype Value = Value(name: Name, text: string)

  datatype Property = Property(name: Name, text: string, values: seq<Value>, items: seq<Item>)

  datatype PropStat = PropStat(name: Name, prop: Name, props: seq<Property>, status: Value)

  datatype Response = Response(name: Name, href: Value, status: Value, propStats: seq<PropStat>, props: seq<Property>)

  /** A document as the writer writes it, or with the item lists as they are meant. */
  datatype Manner = AsWritten | AsMeant

  // ---------- what is written ----------

  function Element(name: Name, inner: seq<Token>): seq<Token> {
    [Open(name)] + inner + [Close]
  }

  function PrintValue(v: Value): seq<Token> {
    if v.text != "" then [Text(v.name, v.text)] else Element(v.name, [])
  }

  function PrintValues(vs: seq<Value>): seq<Token> {
    if vs == [] then [] else PrintValue(vs[0]) + PrintValues(vs[1..])
  }

  /** A property; its items only where the caller writes them. */
  function PrintProperty(p: Property, withItems: bool, m: Manner := AsWritten): seq<Token> {
    var inner := ItemTokens(p, withItems, m) + PrintValues(p.values);
    if p.text != "" then [Text(p.name, p.text)] + inner else Element(p.name, inner)
  }

  function PrintProperties(ps: seq<Property>, withItems: bool, m: Manner := AsWritten): seq<Token> {
    if ps == [] then [] else PrintProperty(ps[0], withItems, m) + PrintProperties(ps[1..], withItems, m)
  }

  function PrintPropStat(s: PropStat, m: Manner := AsWritten): seq<Token> {
    Element(s.name, Element(s.prop, PrintProperties(s.props, true, m)) + [Text(s.status.name, s.status.text)])
  }

  function PrintPropStats(ss: seq<PropStat>, m: Manner := AsWritten): seq<Token> {
    if ss == [] then [] else PrintPropStat(ss[0], m) + PrintPropStats(ss[1..], m)
  }

  function PrintNamed(v: Value): seq<Token> {
    if v.name.prop != "" then [Text(v.name, v.text)] else []
  }

  function PrintBody(r: Response, m: Manner := AsWritten): seq<Token> {
    PrintNamed(r.href) + PrintNamed(r.status) + PrintPropStats(r.propStats, m) + PrintProperties(r.props, false, m)
  }

  function PrintResponse(r: Response, m: Manner := AsWritten): seq<Token> {
    Element(r.name, PrintBody(r, m))
  }

  function PrintResponses(rs: seq<Response>, m: Manner := AsWritten): seq<Token> {
    if rs == [] then [] else PrintResponse(rs[0], m) + PrintResponses(rs[1..], m)
  }

  /** The document up to the end tag written for its root. */
  function PrintDocument(name: Name, rs: seq<Response>, m: Manner := AsWritten): seq<Token> {
    Element(name, PrintResponses(rs, m))
  }

  /** The whole document: its end closes what is still open. */
  function Finished(name: Name, rs: seq<Response>): seq<Token> {
    PrintDocument(name, rs) + Closes(BadResponses(rs))
  }

  // ---------- nesting ----------

  predicate ItemsLevel(ps: seq<Property>) {
    forall p :: p in ps && p.items != [] ==> Fits(p.items)
  }

  predicate StatsLevel(ss: seq<PropStat>) {
    forall s :: s in ss ==> ItemsLevel(s.props)
  }

  predicate AllLevel(rs: seq<Response>) {
    forall r :: r in rs ==> StatsLevel(r.propStats)
  }

  /** Elements left open by the item lists of some properties. */
  function BadItems(ps: seq<Property>): nat {
    if ps == [] then 0 else BadOf(ps[0], true) + BadItems(ps[1..])
  }

  function BadStats(ss: seq<PropStat>): nat {
    if ss == [] then 0 else BadItems(ss[0].props) + BadStats(ss[1..])
  }

  function BadResponses(rs: seq<Response>): nat {
    if rs == [] then 0 else BadStats(rs[0].propStats) + BadResponses(rs[1..])
  }

  /** Some tokens leave `n` elements open, wherever they stand, and close no others. */
  ghost predicate Leaves(tokens: seq<Token>, n: nat) {
    forall d: nat :: Nest(tokens, d) == Some(d + n)
  }

  lemma ElementLeaves(name: Name, inner: seq<Token>, n: nat)
    requires Leaves(inner, n)
    ensures Leaves(Element(name, inner), n)
  {
    forall d: nat ensures Nest(Element(name, inner), d) == Some(d + n) {
      assert Element(name, inner)[1..] == inner + [Close];
      NestTogether(inner, [Close], d + 1);
      assert [Close][1..] == [];
    }
  }

  /** Two parts, one behind the other. */
  lemma PartsLeave(a: seq<Token>, b: seq<Token>, m: nat, n: nat)
    requires Leaves(a, m) && Leaves(b, n)
    ensures Leaves(a + b, m + n)
  {
    forall d: nat ensures Nest(a + b, d) == Some(d + (m + n)) {
      NestTogether(a, b, d);
    }
  }

  lemma TextLeaves(name: Name, text: string)
    ensures Leaves([Text(name, text)], 0) && Leaves([], 0)
  {
    assert [Text(name, text)][1..] == [];
  }

  lemma {:induction false} ValuesLeave(vs: seq<Value>)
    ensures Leaves(PrintValues(vs), 0)
  {
    TextLeaves(Name("", ""), "");
    if vs != [] {
      ElementLeaves(vs[0].name, [], 0);
      TextLeaves(vs[0].name, vs[0].text);
      ValuesLeave(vs[1..]);
      PartsLeave(PrintValue(vs[0]), PrintValues(vs[1..]), 0, 0);
    }
  }

  function ItemTokens(p: Property, withItems: bool, m: Manner := AsWritten): seq<Token> {
    if !withItems || p.items == [] then [] else if m.AsMeant? then Meant(p.items, 0) else Emitted(p.items, 0)
  }

  function BadOf(p: Property, withItems: bool): nat {
    if withItems then Bad(p.items, 0) else 0
  }

  lemma ItemsLeave(p: Property, withItems: bool)
    requires withItems && p.items != [] ==> Fits(p.items)
    ensures Leaves(ItemTokens(p, withItems), BadOf(p, withItems))
  {
    if withItems && p.items != [] {
      forall d: nat ensures Nest(Emitted(p.items, 0), d) == Some(d + Bad(p.items, 0)) {
        ListNests(p.items, 0, d);
      }
    }
  }

  lemma PropertyLeaves(p: Property, withItems: bool)
    requires withItems && p.items != [] ==> Fits(p.items)
    ensures Leaves(PrintProperty(p, withItems), BadOf(p, withItems))
  {
    var inner := ItemTokens(p, withItems) + PrintValues(p.values);
    ItemsLeave(p, withItems);
    ValuesLeave(p.values);
    PartsLeave(ItemTokens(p, withItems), PrintValues(p.values), BadOf(p, withItems), 0);
    if p.text != "" {
      TextLeaves(p.name, p.text);
      PartsLeave([Text(p.name, p.text)], inner, 0, BadOf(p, withItems));
    } else {
      ElementLeaves(p.name, inner, BadOf(p, withItems));
    }
  }

  lemma {:induction false} PropertiesLeave(ps: seq<Property>)
    requires ItemsLevel(ps)
    ensures Leaves(PrintProperties(ps, true), BadItems(ps))
  {
    TextLeaves(Name("", ""), "");
    if ps != [] {
      PropertyLeaves(ps[0], true);
      PropertiesLeave(ps[1..]);
      PartsLeave(PrintProperty(ps[0], true), PrintProperties(ps[1..], true), BadOf(ps[0], true), BadItems(ps[1..]));
    }
  }

  lemma {:induction false} PlainPropertiesLeave(ps: seq<Property>)
    ensures Leaves(PrintProperties(ps, false), 0)
  {
    TextLeaves(Name("", ""), "");
    if ps != [] {
      PropertyLeaves(ps[0], false);
      PlainPropertiesLeave(ps[1..]);
      PartsLeave(PrintProperty(ps[0], false), PrintProperties(ps[1..], false), 0, 0);
    }
  }

  lemma PropStatLeaves(s: PropStat)
    requires ItemsLevel(s.props)
    ensures Leaves(PrintPropStat(s), BadItems(s.props))
  {
    var inner, n := PrintProperties(s.props, true), BadItems(s.props);
    PropertiesLeave(s.props);
    ElementLeaves(s.prop, inner, n);
    TextLeaves(s.status.name, s.status.text);
    PartsLeave(Element(s.prop, inner), [Text(s.status.name, s.status.text)], n, 0);
    ElementLeaves(s.name, Element(s.prop, inner) + [Text(s.status.name, s.status.text)], n);
  }

  lemma {:induction false} PropStatsLeave(ss: seq<PropStat>)
    requires StatsLevel(ss)
    ensures Leaves(PrintPropStats(ss), BadStats(ss))
  {
    TextLeaves(Name("", ""), "");
    if ss != [] {
      PropStatLeaves(ss[0]);
      PropStatsLeave(ss[1..]);
      PartsLeave(PrintPropStat(ss[0]), PrintPropStats(ss[1..]), BadItems(ss[0].props), BadStats(ss[1..]));
    }
  }

  lemma ResponseLeaves(r: Response)
    requires StatsLevel(r.propStats)
    ensures Leaves(PrintResponse(r), BadStats(r.propStats))
  {
    var href, status := PrintNamed(r.href), PrintNamed(r.status);
    var stats, props, n := PrintPropStats(r.propStats), PrintProperties(r.props, false), BadStats(r.propStats);
    TextLeaves(r.href.name, r.href.text);
    TextLeaves(r.status.name, r.status.text);
    PartsLeave(href, status, 0, 0);
    PropStatsLeave(r.propStats);
    PartsLeave(href + status, stats, 0, n);
    PlainPropertiesLeave(r.props);
    PartsLeave(href + status + stats, props, n, 0);
    ElementLeaves(r.name, PrintBody(r), n);
  }

  lemma {:induction false} ResponsesLeave(rs: seq<Response>)
    requires AllLevel(rs)
    ensures Leaves(PrintResponses(rs), BadResponses(rs))
  {
    TextLeaves(Name("", ""), "");
    if rs != [] {
      ResponseLeaves(rs[0]);
      ResponsesLeave(rs[1..]);
      PartsLeave(PrintResponse(rs[0]), PrintResponses(rs[1..]), BadStats(rs[0].propStats), BadResponses(rs[1..]));
    }
  }

  // ---------- against the document that is meant ----------

  lemma ElementLacks(name: Name, a: seq<Token>, b: seq<Token>, n: nat)
    requires Lacks(a, b, n)
    ensures Lacks(Element(name, a), Element(name, b), n)
  {
    LacksParts([Open(name)], [Open(name)], 0, a, b, n);
    LacksParts([Open(name)] + a, [Open(name)] + b, n, [Close], [Close], 0);
  }

  lemma PropertyLacks(p: Property, withItems: bool)
    ensures Lacks(PrintProperty(p, withItems, AsMeant), PrintProperty(p, withItems), BadOf(p, withItems))
  {
    var meant, written, n := ItemTokens(p, withItems, AsMeant), ItemTokens(p, withItems), BadOf(p, withItems);
    var values, text := PrintValues(p.values), [Text(p.name, p.text)];
    ListLacks(p.items, 0);
    LacksParts(meant, written, n, values, values, 0);
    LacksParts(text, text, 0, meant + values, written + values, n);
    ElementLacks(p.name, meant + values, written + values, n);
  }

  lemma {:induction false} PropertiesLack(ps: seq<Property>)
    ensures Lacks(PrintProperties(ps, true, AsMeant), PrintProperties(ps, true), BadItems(ps))
  {
    if ps != [] {
      PropertyLacks(ps[0], true);
      PropertiesLack(ps[1..]);
      LacksParts(PrintProperty(ps[0], true, AsMeant), PrintProperty(ps[0], true), BadOf(ps[0], true),
        PrintProperties(ps[1..], true, AsMeant), PrintProperties(ps[1..], true), BadItems(ps[1..]));
    }
  }

  lemma {:induction false} PlainPropertiesSame(ps: seq<Property>)
    ensures PrintProperties(ps, false, AsMeant) == PrintProperties(ps, false)
  {
    if ps != [] {
      PlainPropertiesSame(ps[1..]);
    }
  }

  lemma PropStatLacks(s: PropStat)
    ensures Lacks(PrintPropStat(s, AsMeant), PrintPropStat(s), BadItems(s.props))
  {
    var meant, written, n := PrintProperties(s.props, true, AsMeant), PrintProperties(s.props, true), BadItems(s.props);
    var status := [Text(s.status.name, s.status.text)];
    PropertiesLack(s.props);
    ElementLacks(s.prop, meant, written, n);
    LacksParts(Element(s.prop, meant), Element(s.prop, written), n, status, status, 0);
    ElementLacks(s.name, Element(s.prop, meant) + status, Element(s.prop, written) + status, n);
  }

  lemma {:induction false} PropStatsLack(ss: seq<PropStat>)
    ensures Lacks(PrintPropStats(ss, AsMeant), PrintPropStats(ss), BadStats(ss))
  {
    if ss != [] {
      PropStatLacks(ss[0]);
      PropStatsLack(ss[1..]);
      LacksParts(PrintPropStat(ss[0], AsMeant), PrintPropStat(ss[0]), BadItems(ss[0].props),
        PrintPropStats(ss[1..], AsMeant), PrintPropStats(ss[1..]), BadStats(ss[1..]));
    }
  }

  lemma ResponseLacks(r: Response)
    ensures Lacks(PrintResponse(r, AsMeant), PrintResponse(r), BadStats(r.propStats))
  {
    var head, props := PrintNamed(r.href) + PrintNamed(r.status), PrintProperties(r.props, false);
    var n := BadStats(r.propStats);
    var meant, written := PrintPropStats(r.propStats, AsMeant), PrintPropStats(r.propStats);
    PropStatsLack(r.propStats);
    PlainPropertiesSame(r.props);
    LacksParts(head, head, 0, meant, written, n);
    LacksParts(head + meant, head + written, n, props, props, 0);
    ElementLacks(r.name, head + meant + props, head + written + props, n);
  }

  lemma {:induction false} ResponsesLack(rs: seq<Response>)
    ensures Lacks(PrintResponses(rs, AsMeant), PrintResponses(rs), BadResponses(rs))
  {
    if rs != [] {
      ResponseLacks(rs[0]);
      ResponsesLack(rs[1..]);
      LacksParts(PrintResponse(rs[0], AsMeant), PrintResponse(rs[0]), BadStats(rs[0].propStats),
        PrintResponses(rs[1..], AsMeant), PrintResponses(rs[1..]), BadResponses(rs[1..]));
    }
  }

  /** Up to the end tag of its root, the document leaves open one element for each misplaced "ace", and no other. */
  lemma DocumentLeaves(name: Name, rs: seq<Response>)
    requires AllLevel(rs)
    ensures Leaves(PrintDocument(name, rs), BadResponses(rs))
  {
    ResponsesLeave(rs);
    ElementLeaves(name, PrintResponses(rs), BadResponses(rs));
  }

  /** The end of the document closes whatever is open: the finished document is always balanced. */
  lemma FinishedBalanced(name: Name, rs: seq<Response>)
    requires AllLevel(rs)
    ensures Nest(Finished(name, rs), 0) == Some(0)
  {
    DocumentLeaves(name, rs);
    NestTogether(PrintDocument(name, rs), Closes(BadResponses(rs)), 0);
    NestCloses(BadResponses(rs), BadResponses(rs));
  }

  /**
   The finished document is the one that is meant, with the root closed by its own end tag, just
   when no list has a bad "ace" (see `DavItems.IsBad`).
   */
  lemma FinishedAsMeant(name: Name, rs: seq<Response>)
    requires AllLevel(rs)
    ensures Finished(name, rs) == PrintDocument(name, rs, AsMeant) <==> BadResponses(rs) == 0
    ensures Nest(PrintDocument(name, rs), 0) == Some(0) <==> BadResponses(rs) == 0
  {
    DocumentLeaves(name, rs);
    ResponsesLack(rs);
    ElementLacks(name, PrintResponses(rs, AsMeant), PrintResponses(rs), BadResponses(rs));
    if BadResponses(rs) > 0 {
      PartBefore(PrintDocument(name, rs, AsMeant), PrintDocument(name, rs), [], Closes(BadResponses(rs)));
      assert PrintDocument(name, rs, AsMeant) + [] == PrintDocument(name, rs, AsMeant);
    } else {
      assert Closes(0) == [];
    }
  }
}
