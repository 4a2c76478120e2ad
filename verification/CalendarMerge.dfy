/**
 Publishing a calendar: the events of an upload are merged into a folder, by walking over two
 maps of their ids in parallel.
 */
module CalendarMerge {
  import opened Options
  import opened Bytes
  import opened SortedMaps
  import Hex

  type Uid = seq<Byte>

  /** An entry of the upload; only events take part. */
  datatype Item = Item(uid: Uid, isEvent: bool, lastMod: int, content: nat, private: bool)

  /** An entry of the folder; `modified` may be missing from its row. */
  datatype Event = Event(content: nat, modified: Option<int>, private: bool)

  datatype Status = Success | NoAccess | StoreError

  /** One call of the store. */
  datatype Act = Add(pos: nat) | Modify(uid: Uid, pos: nat) | Delete(uid: Uid)

  /** The time of a row without one: zero, in seconds since 1970. */
  const NO_TIME := -11644473600

  function FromItem(item: Item): Event {
    Event(item.content, Some(item.lastMod), item.private)
  }

  /** Position of the last event of the upload with a given key. */
  function UploadMap(items: seq<Item>): map<string, nat> {
    if items == [] then map[]
    else
      var n := |items| - 1;
      if items[n].isEvent then UploadMap(items[..n])[Hex.Bin2Hex(items[n].uid) := n] else UploadMap(items[..n])
  }

  /** The position of the upload's last word on an id. */
  function Upload(items: seq<Item>, uid: Uid): Option<nat> {
    var key := Hex.Bin2Hex(uid);
    if key in UploadMap(items) then Some(UploadMap(items)[key]) else None
  }

  /** The last event of the upload with an id is at position `p`. */
  ghost predicate IsLast(items: seq<Item>, uid: Uid, p: nat) {
    && p < |items| && items[p].isEvent && items[p].uid == uid
    && forall i :: p < i < |items| && items[i].isEvent ==> items[i].uid != uid
  }

  /** Some event of the upload has the id. */
  ghost predicate Uploaded(items: seq<Item>, uid: Uid) {
    exists i :: 0 <= i < |items| && items[i].isEvent && items[i].uid == uid
  }

  /** The upload's word on an id is its last event with that id; entries that are no events have no say. */
  lemma {:induction false} UploadMeans(items: seq<Item>, uid: Uid)
    ensures Upload(items, uid).Some? <==> Uploaded(items, uid)
    ensures forall p: nat :: Upload(items, uid) == Some(p) <==> IsLast(items, uid, p)
    decreases |items|
  {
    if items != [] {
      var n := |items| - 1;
      var front := items[..n];
      UploadMeans(front, uid);
      Hex.Injective(uid, items[n].uid);
      assert forall i :: 0 <= i < n ==> front[i] == items[i];
      if items[n].isEvent && items[n].uid == uid {
        assert Upload(items, uid) == Some(n) && IsLast(items, uid, n);
      } else {
        assert Upload(items, uid) == Upload(front, uid);
        assert Uploaded(items, uid) <==> Uploaded(front, uid);
        forall p: nat ensures IsLast(items, uid, p) <==> IsLast(front, uid, p) {}
      }
    }
  }

  // ---------- the walk ----------

  /** An upload position fits its key, an entry id its key. */
  ghost predicate Keyed(items: seq<Item>, u: seq<Pair<nat>>, s: seq<Pair<Uid>>) {
    && (forall p :: p in u ==> p.value < |items| && Hex.Bin2Hex(items[p.value].uid) == p.key)
    && (forall p :: p in s ==> Hex.Bin2Hex(p.value) == p.key)
  }

  /** The calls the walk makes; `times` are those of the folder before. */
  function Plan(items: seq<Item>, u: seq<Pair<nat>>, s: seq<Pair<Uid>>, times: map<Uid, int>): seq<Act>
    decreases |u| + |s|
  {
    if u == [] && s == [] then []
    else if u == [] then [Delete(s[0].value)] + Plan(items, u, s[1..], times)
    else if s == [] then [Add(u[0].value)] + Plan(items, u[1..], s, times)
    else if u[0].key == s[0].key then
      (if Differ(items, times, u[0].value, s[0].value) then [Modify(s[0].value, u[0].value)] else []) +
        Plan(items, u[1..], s[1..], times)
    else if Before(u[0].key, s[0].key) then [Add(u[0].value)] + Plan(items, u[1..], s, times)
    else [Delete(s[0].value)] + Plan(items, u, s[1..], times)
  }

  predicate Differ(items: seq<Item>, times: map<Uid, int>, pos: nat, uid: Uid) {
    pos < |items| && (if uid in times then times[uid] else NO_TIME) != items[pos].lastMod
  }

  /** What one successful call does to the folder; the private entries of others are not deleted. */
  function Done(items: seq<Item>, censor: bool, f: map<Uid, Event>, act: Act): map<Uid, Event> {
    match act
    case Add(pos) => if pos < |items| then f[items[pos].uid := FromItem(items[pos])] else f
    case Modify(uid, pos) => if pos < |items| then f[uid := FromItem(items[pos])] else f
    case Delete(uid) => if uid in f && censor && f[uid].private then f else f - {uid}
  }

  function AllDone(items: seq<Item>, censor: bool, f: map<Uid, Event>, acts: seq<Act>): map<Uid, Event>
    decreases |acts|
  {
    if acts == [] then f else AllDone(items, censor, Done(items, censor, f, acts[0]), acts[1..])
  }

  /** What the merge leaves of one id. */
  ghost predicate Settled(
    items: seq<Item>, censor: bool, f: map<Uid, Event>, r: map<Uid, Event>, uid: Uid, pos: Option<nat>,
    times: map<Uid, int>, there: bool) {
    if pos.Some? then
      && pos.value < |items| && uid in r
      && r[uid] == if there && uid in f && !Differ(items, times, pos.value, uid) then f[uid]
        else FromItem(items[pos.value])
    else if there then
      uid in f && (uid in r <==> censor && f[uid].private) && (uid in r ==> r[uid] == f[uid])
    else (uid in r <==> uid in f) && (uid in r ==> r[uid] == f[uid])
  }

  function Found<V>(s: seq<Pair<V>>, uid: Uid): Option<V> {
    var key := Hex.Bin2Hex(uid);
    if key in ToMap(s) then Some(ToMap(s)[key]) else None
  }

  lemma FoundFirst<V>(s: seq<Pair<V>>, uid: Uid)
    requires s != [] && Sorted(s)
    ensures Found(s, uid) == if Hex.Bin2Hex(uid) == s[0].key then Some(s[0].value) else Found(s[1..], uid)
    ensures Hex.Bin2Hex(uid) == s[0].key ==> Found(s[1..], uid) == None
  {
    AboveAbsent(s[0].key, s[1..]);
  }

  /** Entries behind the first have other ids. */
  lemma OtherIds(items: seq<Item>, u: seq<Pair<nat>>, s: seq<Pair<Uid>>)
    requires s != [] && Sorted(s) && Keyed(items, u, s)
    ensures forall p :: p in s[1..] ==> p.value != s[0].value
  {
    forall p | p in s[1..] ensures p.value != s[0].value {
      BeforeTotal(s[0].key, p.key);
      assert p in s && s[0] in s;
    }
  }

  lemma DeleteSettles(
    items: seq<Item>, u: seq<Pair<nat>>, s: seq<Pair<Uid>>, times: map<Uid, int>, censor: bool, f: map<Uid, Event>,
    r: map<Uid, Event>, uid: Uid)
    requires Sorted(u) && Sorted(s) && Keyed(items, u, s) && s != [] && s[0].value in f
    requires u == [] || Before(s[0].key, u[0].key)
    requires Settled(items, censor, Done(items, censor, f, Delete(s[0].value)), r, uid, Found(u, uid), times,
      Found(s[1..], uid).Some?)
    ensures Settled(items, censor, f, r, uid, Found(u, uid), times, Found(s, uid).Some?)
  {
    assert s[0] in s;
    FoundFirst(s, uid);
    Hex.Injective(uid, s[0].value);
    if uid == s[0].value {
      FirstAbsent(s[0].key, u);
    }
  }

  lemma AddSettles(
    items: seq<Item>, u: seq<Pair<nat>>, s: seq<Pair<Uid>>, times: map<Uid, int>, censor: bool, f: map<Uid, Event>,
    r: map<Uid, Event>, uid: Uid)
    requires Sorted(u) && Sorted(s) && Keyed(items, u, s) && u != []
    requires s == [] || Before(u[0].key, s[0].key)
    requires Settled(items, censor, Done(items, censor, f, Add(u[0].value)), r, uid, Found(u[1..], uid), times,
      Found(s, uid).Some?)
    ensures Settled(items, censor, f, r, uid, Found(u, uid), times, Found(s, uid).Some?)
  {
    assert u[0] in u;
    FoundFirst(u, uid);
    Hex.Injective(uid, items[u[0].value].uid);
    if uid == items[u[0].value].uid {
      FirstAbsent(u[0].key, s);
    }
  }

  lemma BothSettle(
    items: seq<Item>, u: seq<Pair<nat>>, s: seq<Pair<Uid>>, times: map<Uid, int>, censor: bool, f: map<Uid, Event>,
    r: map<Uid, Event>, uid: Uid)
    requires Sorted(u) && Sorted(s) && Keyed(items, u, s) && u != [] && s != [] && u[0].key == s[0].key
    requires s[0].value in f
    requires Settled(items, censor,
      if Differ(items, times, u[0].value, s[0].value) then Done(items, censor, f, Modify(s[0].value, u[0].value))
        else f,
      r, uid, Found(u[1..], uid), times, Found(s[1..], uid).Some?)
    ensures Settled(items, censor, f, r, uid, Found(u, uid), times, Found(s, uid).Some?)
  {
    assert u[0] in u && s[0] in s;
    FoundFirst(u, uid);
    FoundFirst(s, uid);
    Hex.Injective(uid, s[0].value);
  }

  /** The plan, carried out, settles every id. */
  lemma {:induction false} PlanSettles(
    items: seq<Item>, u: seq<Pair<nat>>, s: seq<Pair<Uid>>, times: map<Uid, int>, censor: bool, f: map<Uid, Event>,
    uid: Uid)
    requires Sorted(u) && Sorted(s) && Keyed(items, u, s) && forall p :: p in s ==> p.value in f
    ensures Settled(items, censor, f, AllDone(items, censor, f, Plan(items, u, s, times)), uid, Found(u, uid),
      times, Found(s, uid).Some?)
    decreases |u| + |s|
  {
    var acts := Plan(items, u, s, times);
    if u == [] && s == [] {
    } else if s != [] && (u == [] || (u[0].key != s[0].key && !Before(u[0].key, s[0].key))) {
      var f1 := Done(items, censor, f, Delete(s[0].value));
      OtherIds(items, u, s);
      if u != [] {
        BeforeTotal(u[0].key, s[0].key);
      }
      PlanSettles(items, u, s[1..], times, censor, f1, uid);
      assert acts[1..] == Plan(items, u, s[1..], times);
      DeleteSettles(items, u, s, times, censor, f, AllDone(items, censor, f, acts), uid);
    } else if s == [] || u[0].key != s[0].key {
      var f1 := Done(items, censor, f, Add(u[0].value));
      PlanSettles(items, u[1..], s, times, censor, f1, uid);
      assert acts[1..] == Plan(items, u[1..], s, times);
      AddSettles(items, u, s, times, censor, f, AllDone(items, censor, f, acts), uid);
    } else {
      var differ := Differ(items, times, u[0].value, s[0].value);
      var f1 := if differ then Done(items, censor, f, Modify(s[0].value, u[0].value)) else f;
      PlanSettles(items, u[1..], s[1..], times, censor, f1, uid);
      var rest := Plan(items, u[1..], s[1..], times);
      assert if differ then acts == [Modify(s[0].value, u[0].value)] + rest && acts[1..] == rest else acts == rest;
      BothSettle(items, u, s, times, censor, f, AllDone(items, censor, f, acts), uid);
    }
  }

  /** The calls the plan makes about one id. */
  ghost predicate Calls(
    items: seq<Item>, acts: seq<Act>, uid: Uid, pos: Option<nat>, times: map<Uid, int>, there: bool) {
    && (Delete(uid) in acts <==> there && pos.None?)
    && (forall p: nat :: Modify(uid, p) in acts <==> there && pos == Some(p) && Differ(items, times, p, uid))
    && (forall p: nat :: p < |items| && items[p].uid == uid ==> (Add(p) in acts <==> !there && pos == Some(p)))
  }

  /** Exactly the missing ids are added, the surplus ones deleted and those with other times modified. */
  lemma {:induction false} PlanCalls(
    items: seq<Item>, u: seq<Pair<nat>>, s: seq<Pair<Uid>>, times: map<Uid, int>, uid: Uid)
    requires Sorted(u) && Sorted(s) && Keyed(items, u, s)
    ensures Calls(items, Plan(items, u, s, times), uid, Found(u, uid), times, Found(s, uid).Some?)
    decreases |u| + |s|
  {
    var acts := Plan(items, u, s, times);
    if u == [] && s == [] {
    } else if s != [] && (u == [] || (u[0].key != s[0].key && !Before(u[0].key, s[0].key))) {
      if u != [] {
        BeforeTotal(u[0].key, s[0].key);
      }
      PlanCalls(items, u, s[1..], times, uid);
      assert s[0] in s && acts[0] == Delete(s[0].value);
      assert acts == [acts[0]] + Plan(items, u, s[1..], times);
      FoundFirst(s, uid);
      Hex.Injective(uid, s[0].value);
      FirstAbsent(s[0].key, u);
    } else if s == [] || u[0].key != s[0].key {
      PlanCalls(items, u[1..], s, times, uid);
      assert u[0] in u && acts[0] == Add(u[0].value);
      assert acts == [acts[0]] + Plan(items, u[1..], s, times);
      FoundFirst(u, uid);
      Hex.Injective(uid, items[u[0].value].uid);
      FirstAbsent(u[0].key, s);
    } else {
      PlanCalls(items, u[1..], s[1..], times, uid);
      assert u[0] in u && s[0] in s;
      FoundFirst(u, uid);
      FoundFirst(s, uid);
      Hex.Injective(uid, s[0].value);
    }
  }

  /** The id a call is about. */
  function About(items: seq<Item>, act: Act): Uid {
    match act
    case Add(pos) => if pos < |items| then items[pos].uid else []
    case Modify(uid, _) => uid
    case Delete(uid) => uid
  }

  ghost predicate OnlyPositions(items: seq<Item>, acts: seq<Act>) {
    forall pos: nat :: Add(pos) in acts ==> pos < |items|
  }

  lemma {:induction false} PlanPositions(items: seq<Item>, u: seq<Pair<nat>>, s: seq<Pair<Uid>>, times: map<Uid, int>)
    requires Keyed(items, u, s)
    ensures OnlyPositions(items, Plan(items, u, s, times))
    decreases |u| + |s|
  {
    if u != [] {
      assert u[0] in u;
      PlanPositions(items, u[1..], s, times);
    }
    if s != [] {
      PlanPositions(items, u, s[1..], times);
    }
    if u != [] && s != [] {
      PlanPositions(items, u[1..], s[1..], times);
    }
  }

  /** No call about an id that neither map has. */
  lemma NoCall(items: seq<Item>, u: seq<Pair<nat>>, s: seq<Pair<Uid>>, times: map<Uid, int>, act: Act)
    requires Sorted(u) && Sorted(s) && Keyed(items, u, s) && act in Plan(items, u, s, times)
    ensures Found(u, About(items, act)).Some? || Found(s, About(items, act)).Some?
  {
    PlanPositions(items, u, s, times);
    PlanCalls(items, u, s, times, About(items, act));
  }

  /** What one round of the walk leaves of the two lists. */
  function NextU(u: seq<Pair<nat>>, s: seq<Pair<Uid>>): seq<Pair<nat>> {
    if u == [] || (s != [] && u[0].key != s[0].key && !Before(u[0].key, s[0].key)) then u else u[1..]
  }

  function NextS(u: seq<Pair<nat>>, s: seq<Pair<Uid>>): seq<Pair<Uid>> {
    if s == [] || (u != [] && u[0].key != s[0].key && Before(u[0].key, s[0].key)) then s else s[1..]
  }

  /** One round makes at most one call, about an id that is not found behind it. */
  lemma RoundCalls(items: seq<Item>, u: seq<Pair<nat>>, s: seq<Pair<Uid>>, times: map<Uid, int>)
    requires Sorted(u) && Sorted(s) && Keyed(items, u, s) && (u != [] || s != [])
    ensures Sorted(NextU(u, s)) && Sorted(NextS(u, s)) && Keyed(items, NextU(u, s), NextS(u, s))
    ensures var acts, rest := Plan(items, u, s, times), Plan(items, NextU(u, s), NextS(u, s), times);
      acts == rest || (acts != [] && acts == [acts[0]] + rest &&
        Found(NextU(u, s), About(items, acts[0])) == None && Found(NextS(u, s), About(items, acts[0])) == None)
  {
    if u != [] {
      assert u[0] in u;
      FoundFirst(u, items[u[0].value].uid);
    }
    if s != [] {
      assert s[0] in s;
      FoundFirst(s, s[0].value);
    }
    if u != [] && s != [] {
      BeforeTotal(u[0].key, s[0].key);
    }
    if NextU(u, s) == u {
      FirstAbsent(s[0].key, u);
    } else if NextS(u, s) == s {
      FirstAbsent(u[0].key, s);
    }
  }

  /** At most one call is about any id. */
  ghost predicate OneEach(items: seq<Item>, acts: seq<Act>) {
    forall i, j :: 0 <= i < j < |acts| ==> About(items, acts[i]) != About(items, acts[j])
  }

  lemma OneMore(items: seq<Item>, a: Act, rest: seq<Act>)
    requires OneEach(items, rest) && forall b :: b in rest ==> About(items, b) != About(items, a)
    ensures OneEach(items, [a] + rest)
  {
    var acts := [a] + rest;
    forall i, j | 0 <= i < j < |acts| ensures About(items, acts[i]) != About(items, acts[j]) {
      assert acts[j] == rest[j - 1] && acts[j] in rest;
      assert i > 0 ==> acts[i] == rest[i - 1];
    }
  }

  lemma {:induction false} PlanOnce(items: seq<Item>, u: seq<Pair<nat>>, s: seq<Pair<Uid>>, times: map<Uid, int>)
    requires Sorted(u) && Sorted(s) && Keyed(items, u, s)
    ensures OneEach(items, Plan(items, u, s, times))
    decreases |u| + |s|
  {
    if u != [] || s != [] {
      var u1, s1 := NextU(u, s), NextS(u, s);
      var acts, rest := Plan(items, u, s, times), Plan(items, u1, s1, times);
      RoundCalls(items, u, s, times);
      PlanOnce(items, u1, s1, times);
      if acts != rest {
        forall b | b in rest ensures About(items, b) != About(items, acts[0]) {
          NoCall(items, u1, s1, times, b);
        }
        OneMore(items, acts[0], rest);
      }
    }
  }

  // ---------- building the maps ----------

  method BuildUpload(items: seq<Item>) returns (u: seq<Pair<nat>>)
    ensures Sorted(u) && ToMap(u) == UploadMap(items)
    ensures forall p :: p in u ==> p.value < |items| && Hex.Bin2Hex(items[p.value].uid) == p.key
  {
    u := [];
    for i := 0 to |items|
      invariant Sorted(u) && ToMap(u) == UploadMap(items[..i])
      invariant forall p :: p in u ==> p.value < i && Hex.Bin2Hex(items[p.value].uid) == p.key
    {
      assert items[..i + 1][..i] == items[..i];
      if items[i].isEvent {
        var key := Hex.ToHex(items[i].uid);
        PutSorted(u, key, i);
        PutMembers(u, key, i);
        u := Put(u, key, i);
      }
    }
    assert items[..|items|] == items;
  }

  /** Rows name the ids of the folder, in any order. */
  method BuildServer(rows: seq<Uid>) returns (s: seq<Pair<Uid>>)
    ensures Sorted(s) && forall p :: p in s ==> p.value in rows && Hex.Bin2Hex(p.value) == p.key
    ensures forall uid :: uid in rows <==> Hex.Bin2Hex(uid) in ToMap(s)
  {
    s := [];
    for i := 0 to |rows|
      invariant Serves(rows[..i], s)
    {
      var key := Hex.ToHex(rows[i]);
      ServerStep(rows[..i], s, rows[i]);
      assert rows[..i + 1] == rows[..i] + [rows[i]];
      s := Put(s, key, rows[i]);
    }
    assert rows[..|rows|] == rows;
  }

  /** The ordered map `s` holds the ids of the rows. */
  ghost predicate Serves(rows: seq<Uid>, s: seq<Pair<Uid>>) {
    && Sorted(s) && (forall p :: p in s ==> p.value in rows && Hex.Bin2Hex(p.value) == p.key)
    && forall uid :: uid in rows <==> Hex.Bin2Hex(uid) in ToMap(s)
  }

  lemma ServerStep(rows: seq<Uid>, s: seq<Pair<Uid>>, last: Uid)
    requires Serves(rows, s)
    ensures Serves(rows + [last], Put(s, Hex.Bin2Hex(last), last))
  {
    var key := Hex.Bin2Hex(last);
    PutSorted(s, key, last);
    PutMembers(s, key, last);
    forall uid ensures uid in rows + [last] <==> Hex.Bin2Hex(uid) in ToMap(Put(s, key, last)) {
      Hex.Injective(uid, last);
    }
  }

  /** Modification times, of the entries that have one. */
  function Times(f: map<Uid, Event>): map<Uid, int> {
    map uid | uid in f && f[uid].modified.Some? :: f[uid].modified.value
  }

  /** What the merge must leave of one id. */
  ghost predicate Merged(items: seq<Item>, censor: bool, f: map<Uid, Event>, r: map<Uid, Event>, uid: Uid) {
    Settled(items, censor, f, r, uid, Upload(items, uid), Times(f), uid in f)
  }

  class Folder {
    var events: map<Uid, Event>

    /** `ok` tells whether the store does what it is asked to. */
    method AddMessage(items: seq<Item>, pos: nat, ok: bool) returns (er: Status)
      requires pos < |items|
      modifies this
      ensures er == if ok then Success else StoreError
      ensures events == if ok then old(events)[items[pos].uid := FromItem(items[pos])] else old(events)
    {
      if !ok {
        return StoreError;
      }
      events := events[items[pos].uid := FromItem(items[pos])];
      er := Success;
    }

    /** Private entries of others are not modified: the call fails. */
    method ModifyMessage(items: seq<Item>, uid: Uid, pos: nat, censor: bool, ok: bool) returns (er: Status)
      requires pos < |items|
      modifies this
      ensures er == if uid !in old(events) then StoreError
                    else if censor && old(events)[uid].private then NoAccess
                    else if ok then Success
                    else StoreError
      ensures events == if er == Success then old(events)[uid := FromItem(items[pos])] else old(events)
    {
      if uid !in events {
        return StoreError;
      }
      if censor && events[uid].private {
        return NoAccess;
      }
      if !ok {
        return StoreError;
      }
      events := events[uid := FromItem(items[pos])];
      er := Success;
    }

    /** Private entries of others are not deleted, without an error. */
    method DelMessage(uid: Uid, censor: bool, ok: bool) returns (er: Status)
      modifies this
      ensures er == if uid !in old(events) then StoreError
                    else if censor && old(events)[uid].private then Success
                    else if ok then Success
                    else StoreError
      ensures events == if er == Success && !(censor && old(events)[uid].private) then old(events) - {uid}
        else old(events)
    {
      if uid !in events {
        return StoreError;
      }
      if censor && events[uid].private {
        return Success;
      }
      if !ok {
        return StoreError;
      }
      events := events - {uid};
      er := Success;
    }

    /** One round of the walk: at most one call. */
    method Round(items: seq<Item>, u: seq<Pair<nat>>, s: seq<Pair<Uid>>, times: map<Uid, int>, censor: bool, ok: bool)
      returns (er: Status, u1: seq<Pair<nat>>, s1: seq<Pair<Uid>>, ghost acts: seq<Act>)
      requires Keyed(items, u, s) && (u != [] || s != [])
      modifies this
      ensures er != Success ==> events == old(events)
      ensures er == Success ==> Keyed(items, u1, s1) && |u1| + |s1| < |u| + |s|
      ensures er == Success ==> Plan(items, u, s, times) == acts + Plan(items, u1, s1, times)
      ensures er == Success ==> events == AllDone(items, censor, old(events), acts)
    {
      er, u1, s1, acts := Success, u, s, [];
      if u == [] || (s != [] && u[0].key != s[0].key && !Before(u[0].key, s[0].key)) {
        acts := [Delete(s[0].value)];
        er := DelMessage(s[0].value, censor, ok);
        s1 := s[1..];
      } else if s == [] || u[0].key != s[0].key {
        assert u[0] in u;
        acts := [Add(u[0].value)];
        er := AddMessage(items, u[0].value, ok);
        u1 := u[1..];
      } else {
        assert u[0] in u;
        u1, s1 := u[1..], s[1..];
        if Differ(items, times, u[0].value, s[0].value) {
          acts := [Modify(s[0].value, u[0].value)];
          er := ModifyMessage(items, s[0].value, u[0].value, censor, ok);
        }
      }
    }

    /**
     Merges an upload into the folder; `answers(n)` is what the store does with the n-th round.
     After an error the folder has the calls done so far.
     */
    method HandlePost(items: seq<Item>, rows: seq<Uid>, censor: bool, answers: nat -> bool)
      returns (er: Status, ghost plan: seq<Act>, ghost done: seq<Act>)
      requires forall uid :: uid in rows <==> uid in events
      modifies this
      ensures done <= plan && events == AllDone(items, censor, old(events), done) && IsPlan(items, old(events), plan)
      ensures er == Success ==> done == plan && forall uid :: Merged(items, censor, old(events), events, uid)
    {
      var u := BuildUpload(items);
      var s := BuildServer(rows);
      var times := Times(events);
      plan := Plan(items, u, s, times);
      PlanIsPlan(items, events, u, s);
      ghost var f := events;
      er, done := Walk(items, u, s, times, censor, answers);
      forall uid ensures Merged(items, censor, f, AllDone(items, censor, f, plan), uid) {
        PlanMerges(items, censor, f, u, s, uid);
      }
    }

    /** The loop over both maps. */
    method Walk(
      items: seq<Item>, upload: seq<Pair<nat>>, server: seq<Pair<Uid>>, times: map<Uid, int>, censor: bool,
      answers: nat -> bool)
      returns (er: Status, ghost done: seq<Act>)
      requires Keyed(items, upload, server)
      modifies this
      ensures done <= Plan(items, upload, server, times) && events == AllDone(items, censor, old(events), done)
      ensures er == Success ==> done == Plan(items, upload, server, times)
    {
      ghost var f, plan := events, Plan(items, upload, server, times);
      var u, s, n := upload, server, 0;
      done, er := [], Success;
      while u != [] || s != []
        invariant er == Success && Keyed(items, u, s) && done + Plan(items, u, s, times) == plan
        invariant events == AllDone(items, censor, f, done)
        decreases |u| + |s|
      {
        ghost var acts;
        er, u, s, acts := Round(items, u, s, times, censor, answers(n));
        if er != Success {
          return;
        }
        DoneTogether(items, censor, f, done, acts);
        Regroup(done, acts, Plan(items, u, s, times));
        done := done + acts;
        n := n + 1;
      }
    }
  }

  lemma Regroup(a: seq<Act>, b: seq<Act>, c: seq<Act>)
    ensures a + (b + c) == (a + b) + c
  {
  }

  lemma {:induction false} DoneTogether(items: seq<Item>, censor: bool, f: map<Uid, Event>, a: seq<Act>, b: seq<Act>)
    ensures AllDone(items, censor, f, a + b) == AllDone(items, censor, AllDone(items, censor, f, a), b)
    decreases |a|
  {
    if a == [] {
      assert a + b == b;
    } else {
      assert (a + b)[1..] == a[1..] + b;
      DoneTogether(items, censor, Done(items, censor, f, a[0]), a[1..], b);
    }
  }

  /** Both maps stand for the upload and the folder. */
  ghost predicate Built(items: seq<Item>, f: map<Uid, Event>, u: seq<Pair<nat>>, s: seq<Pair<Uid>>) {
    && Sorted(u) && Sorted(s) && Keyed(items, u, s) && ToMap(u) == UploadMap(items)
    && (forall p :: p in s ==> p.value in f) && (forall uid :: uid in f <==> Hex.Bin2Hex(uid) in ToMap(s))
  }

  lemma PlanMerges(items: seq<Item>, censor: bool, f: map<Uid, Event>, u: seq<Pair<nat>>, s: seq<Pair<Uid>>, uid: Uid)
    requires Built(items, f, u, s)
    ensures Merged(items, censor, f, AllDone(items, censor, f, Plan(items, u, s, Times(f))), uid)
  {
    PlanSettles(items, u, s, Times(f), censor, f, uid);
  }

  /** Each id gets at most one call, and just the call it needs. */
  ghost predicate IsPlan(items: seq<Item>, f: map<Uid, Event>, acts: seq<Act>) {
    && (forall uid :: Calls(items, acts, uid, Upload(items, uid), Times(f), uid in f))
    && OneEach(items, acts)
  }

  lemma PlanIsPlan(items: seq<Item>, f: map<Uid, Event>, u: seq<Pair<nat>>, s: seq<Pair<Uid>>)
    requires Built(items, f, u, s)
    ensures IsPlan(items, f, Plan(items, u, s, Times(f)))
  {
    var acts := Plan(items, u, s, Times(f));
    forall uid ensures Calls(items, acts, uid, Upload(items, uid), Times(f), uid in f) {
      PlanCalls(items, u, s, Times(f), uid);
    }
    PlanOnce(items, u, s, Times(f));
  }

  /** The ids after a merge: those of the upload, and private entries of others that are not in it. */
  lemma MergedIds(items: seq<Item>, censor: bool, f: map<Uid, Event>, r: map<Uid, Event>)
    requires forall uid :: Merged(items, censor, f, r, uid)
    ensures forall uid :: uid in r <==> Uploaded(items, uid) || (uid in f && censor && f[uid].private)
  {
    forall uid ensures uid in r <==> Uploaded(items, uid) || (uid in f && censor && f[uid].private) {
      assert Merged(items, censor, f, r, uid);
      UploadMeans(items, uid);
    }
  }

  /** The time of an entry, in seconds since 1970; that of one without a time is the zero of file times. */
  function TimeOf(e: Event): int {
    match e.modified
    case Some(t) => t
    case None => -11644473600
  }

  /**
   The entries after a merge: an uploaded id has the content of its last event, unless the folder
   had an entry of the same time, which stays; what else is left stays as it was.
   */
  lemma MergedEntries(items: seq<Item>, censor: bool, f: map<Uid, Event>, r: map<Uid, Event>, uid: Uid)
    requires Merged(items, censor, f, r, uid)
    ensures forall p: nat :: IsLast(items, uid, p) ==>
      uid in r && r[uid] == if uid in f && TimeOf(f[uid]) == items[p].lastMod then f[uid]
                            else Event(items[p].content, Some(items[p].lastMod), items[p].private)
    ensures !Uploaded(items, uid) && uid in r ==> uid in f && censor && f[uid].private && r[uid] == f[uid]
  {
    UploadMeans(items, uid);
  }

  /** The calls of a merge, on the entries themselves. */
  lemma PlanMeans(items: seq<Item>, f: map<Uid, Event>, plan: seq<Act>, uid: Uid)
    requires IsPlan(items, f, plan)
    ensures Delete(uid) in plan <==> uid in f && !Uploaded(items, uid)
    ensures forall p: nat :: Modify(uid, p) in plan <==>
      uid in f && IsLast(items, uid, p) && TimeOf(f[uid]) != items[p].lastMod
    ensures forall p: nat :: p < |items| && items[p].uid == uid ==>
      (Add(p) in plan <==> uid !in f && IsLast(items, uid, p))
  {
    UploadMeans(items, uid);
    assert Calls(items, plan, uid, Upload(items, uid), Times(f), uid in f);
  }

  /** The same upload again adds nothing, and deletes nothing but the private entries that are skipped. */
  lemma RepeatedUpload(items: seq<Item>, censor: bool, f: map<Uid, Event>, r: map<Uid, Event>, again: seq<Act>)
    requires (forall uid :: Merged(items, censor, f, r, uid)) && IsPlan(items, r, again)
    ensures forall pos: nat :: pos < |items| ==> Add(pos) !in again
    ensures forall uid :: Delete(uid) in again ==>
      uid in r && censor && r[uid].private && Done(items, censor, r, Delete(uid)) == r
  {
    MergedIds(items, censor, f, r);
    forall pos: nat | pos < |items| ensures Add(pos) !in again {
      UploadMeans(items, items[pos].uid);
      assert Calls(items, again, items[pos].uid, Upload(items, items[pos].uid), Times(r), items[pos].uid in r);
    }
    forall uid | Delete(uid) in again
      ensures uid in r && censor && r[uid].private && Done(items, censor, r, Delete(uid)) == r
    {
      assert Calls(items, again, uid, Upload(items, uid), Times(r), uid in r);
      assert Merged(items, censor, f, r, uid);
    }
  }
}
