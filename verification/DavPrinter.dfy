/** The methods that write a multi-status document to an XML writer. */
module DavPrinter {
  import opened DavItems
  import opened DavWriter

  /** The XML writer: what was written, and how many elements are open. */
  class Printer {
    var out: seq<Token>
    var depth: nat

    constructor ()
      ensures out == [] && depth == 0
    {
      out, depth := [], 0;
    }

    method StartElement(name: Name)
      modifies this
      ensures out == old(out) + [Open(name)] && depth == old(depth) + 1
    {
      out, depth := out + [Open(name)], depth + 1;
    }

    method WriteElement(name: Name, text: string)
      modifies this
      ensures out == old(out) + [Text(name, text)] && depth == old(depth)
    {
      out := out + [Text(name, text)];
    }

    /** Fails when no element is open. */
    method EndElement() returns (ok: bool)
      modifies this
      ensures (ok <==> old(depth) > 0)
      ensures ok ==> out == old(out) + [Close] && depth == old(depth) - 1
      ensures !ok ==> out == old(out) && depth == old(depth)
    {
      if depth == 0 {
        return false;
      }
      out, depth := out + [Close], depth - 1;
      ok := true;
    }

    /** The loop that closes elements while an unsigned counter goes from `from` to `last`. */
    method EndElements(from: nat, last: nat) returns (ok: bool)
      modifies this
      ensures last < ULONG_RANGE - 1 && from <= last + 1 && last + 1 - from <= old(depth) ==>
        ok && out == old(out) + Closes(last + 1 - from) && depth == old(depth) - (last + 1 - from)
    {
      var i := from;
      ghost var n := 0;
      ghost var fine := last < ULONG_RANGE - 1 && from <= last + 1 && last + 1 - from <= depth;
      while i <= last
        invariant 0 <= n <= old(depth) && depth == old(depth) - n && out == old(out) + Closes(n)
        invariant fine ==> i == from + n && i <= last + 1
        decreases depth
      {
        ok := EndElement();
        if !ok {
          return;
        }
        ClosesTogether(n, 1);
        assert Closes(1) == [Close];
        n := n + 1;
        i := (i + 1) % ULONG_RANGE;
      }
      ok := true;
    }

    method PrintItem(item: Item)
      modifies this
      ensures out == old(out) + [Print(item)] && depth == old(depth) + if item.text != "" then 0 else 1
    {
      if item.text != "" {
        WriteElement(item.name, item.text);
      } else {
        StartElement(item.name);
      }
    }

    /** What is closed in front of an item. */
    method CloseBefore(item: Item, prev: nat, first: bool) returns (ok: bool)
      modifies this
      ensures var open := if first then 0 else prev + 1;
        (first ==> prev == 0 && item.depth == 0) && prev < ULONG_RANGE - 1 && item.depth <= open <= old(depth) ==>
        ok && out == old(out) + Before(item, open) &&
          depth == old(depth) - if IsBad(item, open) then 0 else open - item.depth
    {
      ok := true;
      if item.depth >= prev {
        if item.depth == prev && !first && item.name.prop != ACE {
          assert Closes(1) == [Close];
          ok := EndElement();
        }
      } else {
        ok := EndElements(item.depth, prev);
      }
    }

    /** One item, with what is closed in front of it. */
    method WriteItem(item: Item, prev: nat, first: bool) returns (ok: bool)
      modifies this
      ensures var open := if first then 0 else prev + 1;
        (first ==> prev == 0 && item.depth == 0) && prev < ULONG_RANGE - 1 && item.depth <= open <= old(depth) ==>
        ok && out == old(out) + (Before(item, open) + [Print(item)]) && depth == DepthAfter(item, open, old(depth))
    {
      ok := CloseBefore(item, prev, first);
      if ok {
        PrintItem(item);
      }
    }

    /** Writes a list of items that is not empty. */
    method WriteItems(items: seq<Item>) returns (ok: bool)
      requires items != []
      modifies this
      ensures Fits(items) ==> ok && out == old(out) + Emitted(items, 0) && depth == old(depth) + Bad(items, 0)
    {
      var prev: nat, first, rest := items[0].depth, true, items;
      ghost var fine, was, base := Fits(items), out, depth;
      while rest != []
        invariant (first ==> rest == items && prev == items[0].depth)
        invariant forall item :: item in rest ==> item in items
        invariant fine ==> Progress(items, rest, if first then 0 else prev + 1, was, base, out, depth)
        invariant fine ==> prev < ULONG_RANGE - 1
        decreases |rest|
      {
        var item := rest[0];
        assert item in rest && item in items;
        ghost var open, o, d := if first then 0 else prev + 1, out, depth;
        ok := WriteItem(item, prev, first);
        if !ok {
          return;
        }
        if fine {
          ProgressStep(items, rest, open, was, base, o, d);
        }
        first := false;
        prev := if item.text != "" then (item.depth - 1) % ULONG_RANGE else item.depth;
        rest := rest[1..];
      }
      ok := EndElements(0, prev);
    }

    method WriteValues(values: seq<Value>) returns (ok: bool)
      modifies this
      ensures ok && out == old(out) + PrintValues(values) && depth == old(depth)
    {
      ok := true;
      var rest := values;
      while rest != []
        invariant ok && depth == old(depth) && old(out) + PrintValues(values) == out + PrintValues(rest)
        decreases |rest|
      {
        ghost var was := out;
        if rest[0].text != "" {
          WriteElement(rest[0].name, rest[0].text);
        } else {
          StartElement(rest[0].name);
          ok := EndElement();
        }
        assert out == was + PrintValue(rest[0]);
        Assoc(was, PrintValue(rest[0]), PrintValues(rest[1..]));
        rest := rest[1..];
      }
    }

    /** The items of a property, if it has any and the caller writes them. */
    method WriteInner(p: Property, withItems: bool) returns (ok: bool)
      modifies this
      ensures (withItems && p.items != [] ==> Fits(p.items)) ==>
        ok && out == old(out) + (ItemTokens(p, withItems) + PrintValues(p.values)) &&
          depth == old(depth) + BadOf(p, withItems)
    {
      ok := true;
      if withItems && p.items != [] {
        ok := WriteItems(p.items);
        if !ok {
          return;
        }
      }
      Assoc(old(out), ItemTokens(p, withItems), PrintValues(p.values));
      ok := WriteValues(p.values);
    }

    /** One property of a list. */
    method WriteProperty(p: Property, withItems: bool) returns (ok: bool)
      modifies this
      ensures (withItems && p.items != [] ==> Fits(p.items)) ==>
        ok && out == old(out) + PrintProperty(p, withItems) && depth == old(depth) + BadOf(p, withItems)
    {
      if p.text != "" {
        WriteElement(p.name, p.text);
      } else {
        StartElement(p.name);
      }
      ok := WriteInner(p, withItems);
      if ok && p.text == "" {
        ok := EndElement();
      }
    }

    /** The loop over a list of properties. */
    method WriteProperties(ps: seq<Property>, withItems: bool) returns (ok: bool)
      modifies this
      ensures (withItems ==> ItemsLevel(ps)) ==>
        ok && out == old(out) + PrintProperties(ps, withItems) &&
          depth == old(depth) + if withItems then BadItems(ps) else 0
    {
      ok := true;
      var rest := ps;
      while rest != []
        invariant forall p :: p in rest ==> p in ps
        invariant (withItems ==> ItemsLevel(ps)) ==>
          && ok && old(out) + PrintProperties(ps, withItems) == out + PrintProperties(rest, withItems)
          && old(depth) + (if withItems then BadItems(ps) else 0) == depth + if withItems then BadItems(rest) else 0
        decreases |rest|
      {
        ghost var was := out;
        assert rest[0] in ps;
        ok := WriteProperty(rest[0], withItems);
        if !ok {
          return;
        }
        Assoc(was, PrintProperty(rest[0], withItems), PrintProperties(rest[1..], withItems));
        rest := rest[1..];
      }
    }

    /** The element with the properties of a status. */
    method WriteProp(s: PropStat) returns (ok: bool)
      modifies this
      ensures ItemsLevel(s.props) ==>
        ok && out == old(out) + Element(s.prop, PrintProperties(s.props, true)) &&
          depth == old(depth) + BadItems(s.props)
    {
      StartElement(s.prop);
      ok := WriteProperties(s.props, true);
      if ok {
        ok := EndElement();
      }
      Wrapped(old(out), s.prop, PrintProperties(s.props, true));
    }

    method WritePropStat(s: PropStat) returns (ok: bool)
      modifies this
      ensures ItemsLevel(s.props) ==>
        ok && out == old(out) + PrintPropStat(s) && depth == old(depth) + BadItems(s.props)
    {
      StartElement(s.name);
      ok := WriteProp(s);
      if ok {
        WriteElement(s.status.name, s.status.text);
        ok := EndElement();
      }
      Assoc(old(out) + [Open(s.name)], Element(s.prop, PrintProperties(s.props, true)),
        [Text(s.status.name, s.status.text)]);
      Wrapped(old(out), s.name, Element(s.prop, PrintProperties(s.props, true)) + [Text(s.status.name, s.status.text)]);
    }

    method WritePropStats(ss: seq<PropStat>) returns (ok: bool)
      modifies this
      ensures StatsLevel(ss) ==> ok && out == old(out) + PrintPropStats(ss) && depth == old(depth) + BadStats(ss)
    {
      ok := true;
      var rest := ss;
      while rest != []
        invariant forall s :: s in rest ==> s in ss
        invariant StatsLevel(ss) ==>
          && ok && old(out) + PrintPropStats(ss) == out + PrintPropStats(rest)
          && old(depth) + BadStats(ss) == depth + BadStats(rest)
        decreases |rest|
      {
        ghost var was := out;
        assert rest[0] in ss;
        ok := WritePropStat(rest[0]);
        if !ok {
          return;
        }
        Assoc(was, PrintPropStat(rest[0]), PrintPropStats(rest[1..]));
        rest := rest[1..];
      }
    }

    method WriteNamed(v: Value)
      modifies this
      ensures out == old(out) + PrintNamed(v) && depth == old(depth)
    {
      if v.name.prop != "" {
        WriteElement(v.name, v.text);
      }
    }

    /** What is inside a response. */
    method WriteBody(r: Response) returns (ok: bool)
      modifies this
      ensures StatsLevel(r.propStats) ==> ok && depth == old(depth) + BadStats(r.propStats)
      ensures StatsLevel(r.propStats) ==>
        out == old(out) + PrintBody(r)
    {
      WriteNamed(r.href);
      WriteNamed(r.status);
      ok := WritePropStats(r.propStats);
      if ok {
        ok := WriteProperties(r.props, false);
      }
      ghost var href, status, stats := PrintNamed(r.href), PrintNamed(r.status), PrintPropStats(r.propStats);
      Assoc(old(out), href, status);
      Assoc(old(out), href + status, stats);
      Assoc(old(out), href + status + stats, PrintProperties(r.props, false));
    }

    method WriteResponse(r: Response) returns (ok: bool)
      modifies this
      ensures StatsLevel(r.propStats) ==>
        ok && out == old(out) + PrintResponse(r) && depth == old(depth) + BadStats(r.propStats)
    {
      StartElement(r.name);
      ok := WriteBody(r);
      if ok {
        ok := EndElement();
      }
      Wrapped(old(out), r.name, PrintBody(r));
    }

    method WriteResponses(rs: seq<Response>) returns (ok: bool)
      modifies this
      ensures AllLevel(rs) ==> ok && out == old(out) + PrintResponses(rs) && depth == old(depth) + BadResponses(rs)
    {
      ok := true;
      var rest := rs;
      while rest != []
        invariant forall r :: r in rest ==> r in rs
        invariant AllLevel(rs) ==>
          && ok && old(out) + PrintResponses(rs) == out + PrintResponses(rest)
          && old(depth) + BadResponses(rs) == depth + BadResponses(rest)
        decreases |rest|
      {
        ghost var was := out;
        assert rest[0] in rs;
        ok := WriteResponse(rest[0]);
        if !ok {
          return;
        }
        Assoc(was, PrintResponse(rest[0]), PrintResponses(rest[1..]));
        rest := rest[1..];
      }
    }

    /** The end of the document: every element that is still open is closed. */
    method EndDocument()
      modifies this
      ensures depth == 0 && out == old(out) + Closes(old(depth))
    {
      while depth > 0
        invariant depth <= old(depth) && out == old(out) + Closes(old(depth) - depth)
      {
        ClosesTogether(old(depth) - depth, 1);
        assert Closes(1) == [Close];
        var ok := EndElement();
      }
    }

    /** The root element with all responses. */
    method WriteRoot(name: Name, rs: seq<Response>) returns (ok: bool)
      modifies this
      ensures AllLevel(rs) ==> ok && out == old(out) + PrintDocument(name, rs) && depth == old(depth) + BadResponses(rs)
    {
      StartElement(name);
      ok := WriteResponses(rs);
      if ok {
        ok := EndElement();
      }
      Wrapped(old(out), name, PrintResponses(rs));
    }

    /** The whole document. */
    method WriteDocument(name: Name, rs: seq<Response>) returns (ok: bool)
      requires out == [] && depth == 0
      modifies this
      ensures AllLevel(rs) ==> ok && out == Finished(name, rs) && depth == 0
    {
      ok := WriteRoot(name, rs);
      if ok {
        EndDocument();
      }
    }
  }

  lemma Wrapped(out: seq<Token>, name: Name, inner: seq<Token>)
    ensures ((out + [Open(name)]) + inner) + [Close] == out + Element(name, inner)
  {
  }

  /** Open elements after an item. */
  function DepthAfter(item: Item, open: nat, depth: nat): int {
    depth - (if IsBad(item, open) then 0 else open - item.depth) + if item.text != "" then 0 else 1
  }

  /** The rest of a list is still to be written, behind `open` open elements. */
  ghost predicate Progress(
    items: seq<Item>, rest: seq<Item>, open: nat, was: seq<Token>, base: nat, out: seq<Token>, depth: nat) {
    && Level(rest, open) && was + Emitted(items, 0) == out + Emitted(rest, open)
    && depth + Bad(rest, open) == base + open + Bad(items, 0) && depth >= open
  }

  lemma ProgressStep(
    items: seq<Item>, rest: seq<Item>, open: nat, was: seq<Token>, base: nat, out: seq<Token>, depth: nat)
    requires rest != [] && Progress(items, rest, open, was, base, out, depth)
    ensures DepthAfter(rest[0], open, depth) >= 0
    ensures Progress(items, rest[1..], After(rest[0]), was, base,
                     out + (Before(rest[0], open) + [Print(rest[0])]), DepthAfter(rest[0], open, depth))
  {
    var more := Emitted(rest[1..], After(rest[0]));
    Assoc(Before(rest[0], open), [Print(rest[0])], more);
    Assoc(out, Before(rest[0], open) + [Print(rest[0])], more);
  }
}
