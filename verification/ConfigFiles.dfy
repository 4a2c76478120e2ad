/** Configuration files that include others, as the requests they make in order. */
module ConfigFiles {
  import opened ConfigText
  import opened Configs

  /** `id` tells files apart whatever path leads to them. */
  datatype Node = Directory | File(id: nat, readable: bool, lines: seq<string>)

  /** `resolve` completes a path against the file that names it. */
  datatype Disk = Disk(nodes: map<string, Node>, resolve: (string, string) -> string)

  /** `Thrown`: a known directive that ends the file without any blank behind it. */
  datatype Answer = Yes | No | Thrown

  /** What reading does: its answer, the paths read so far, the requests, and the files opened. */
  datatype Trace = Trace(answer: Answer, read: set<string>, events: seq<Event>, ids: seq<nat>)

  predicate IsFile(disk: Disk, path: string) {
    path in disk.nodes && disk.nodes[path].File?
  }

  predicate Equivalent(disk: Disk, a: string, b: string) {
    IsFile(disk, a) && IsFile(disk, b) && disk.nodes[a].id == disk.nodes[b].id
  }

  predicate WasRead(disk: Disk, path: string, read: set<string>) {
    exists q :: q in read && Equivalent(disk, path, q)
  }

  /** Paths of files that were not read yet, under any path. */
  function Unread(disk: Disk, read: set<string>): set<string> {
    set p | p in disk.nodes && IsFile(disk, p) && !WasRead(disk, p, read)
  }

  lemma WasReadStays(disk: Disk, path: string, read: set<string>, more: set<string>)
    requires read <= more && WasRead(disk, path, read)
    ensures WasRead(disk, path, more)
  {
    var q :| q in read && Equivalent(disk, path, q);
    assert q in more;
  }

  lemma UnreadShrinks(disk: Disk, read: set<string>, more: set<string>)
    requires read <= more
    ensures Unread(disk, more) <= Unread(disk, read)
  {
    forall p | WasRead(disk, p, read) ensures WasRead(disk, p, more) {
      WasReadStays(disk, p, read, more);
    }
  }

  lemma ReadingShrinks(disk: Disk, read: set<string>, path: string)
    requires IsFile(disk, path) && !WasRead(disk, path, read)
    ensures Unread(disk, read + {path}) < Unread(disk, read)
  {
    UnreadShrinks(disk, read, read + {path});
    assert Equivalent(disk, path, path) && path in read + {path};
    assert WasRead(disk, path, read + {path});
    assert path in Unread(disk, read);
  }

  function Failed(read: set<string>, c: Complaint): Trace {
    Trace(No, read, [Trouble(c)], [])
  }

  function Then(t: Trace, u: Trace): Trace {
    Trace(u.answer, u.read, t.events + u.events, t.ids + u.ids)
  }

  /** One file. */
  function ReadFile(
    disk: Disk, allowed: set<string>, path: string, read: set<string>, mode: Mode, group: nat): (t: Trace)
    ensures read <= t.read
    decreases Unread(disk, read), 0
  {
    if path !in disk.nodes then Failed(read, NoFile(path))
    else if disk.nodes[path].Directory? then Failed(read, IsDirectory(path))
    else if WasRead(disk, path, read) then Trace(Yes, read, [], [])
    else if !disk.nodes[path].readable then Failed(read + {path}, CannotOpen(path))
    else
      ReadingShrinks(disk, read, path);
      var t := ReadLines(disk, allowed, path, disk.nodes[path].lines, read + {path}, mode, group);
      t.(ids := [disk.nodes[path].id] + t.ids)
  }

  /** The lines of a file, up to the first directive that fails. */
  function ReadLines(
    disk: Disk, allowed: set<string>, path: string, lines: seq<string>, read: set<string>, mode: Mode,
    group: nat): (t: Trace)
    ensures read <= t.read
    decreases Unread(disk, read), |lines|
  {
    if lines == [] then Trace(Yes, read, [], [])
    else
      match Parse(lines[0])
      case Skip => ReadLines(disk, allowed, path, lines[1..], read, mode, group)
      case Assignment(name, value) =>
        Then(Trace(Yes, read, [Assign(Request(name, value, NO_FLAGS, group), mode)], []),
             ReadLines(disk, allowed, path, lines[1..], read, mode, group))
      case Directive(name, args) =>
        if name !in allowed || !KnownDirective(name) then ReadLines(disk, allowed, path, lines[1..], read, mode, group)
        else if args.None? then Trace(Thrown, read, [], [])
        else
          var d := if name == "include" then
            ReadFile(disk, allowed, disk.resolve(path, Trim(args.value)), read, mode, 0)
                   else ReadFile(disk, allowed, Trim(args.value), read, PROPMAP, PROPMAP_GROUP);
          UnreadShrinks(disk, read, d.read);
          if d.answer == Yes then Then(d, ReadLines(disk, allowed, path, lines[1..], d.read, mode, group)) else d
  }

  predicate KnownDirective(name: string) {
    name == "include" || name == "propmap"
  }

  // ---------- each file once ----------

  ghost predicate Distinct(s: seq<nat>) {
    forall i, j :: 0 <= i < j < |s| ==> s[i] != s[j]
  }

  /** The opened files are different ones, none of which was read before, and all of which are now. */
  ghost predicate Opens(disk: Disk, read: set<string>, t: Trace) {
    && Distinct(t.ids)
    && (forall id :: id in t.ids ==> !IdRead(disk, id, read) && IdRead(disk, id, t.read))
  }

  ghost predicate IdRead(disk: Disk, id: nat, read: set<string>) {
    exists q :: q in read && IsFile(disk, q) && disk.nodes[q].id == id
  }

  lemma SameFile(disk: Disk, path: string, read: set<string>)
    requires IsFile(disk, path)
    ensures IdRead(disk, disk.nodes[path].id, read) <==> WasRead(disk, path, read)
  {
    if IdRead(disk, disk.nodes[path].id, read) {
      var q :| q in read && IsFile(disk, q) && disk.nodes[q].id == disk.nodes[path].id;
      assert Equivalent(disk, path, q);
    }
  }

  lemma IdStaysRead(disk: Disk, id: nat, read: set<string>, more: set<string>)
    requires IdRead(disk, id, read) && read <= more
    ensures IdRead(disk, id, more)
  {
    var q :| q in read && IsFile(disk, q) && disk.nodes[q].id == id;
    assert q in more;
  }

  lemma ThenOpens(disk: Disk, read: set<string>, t: Trace, u: Trace)
    requires Opens(disk, read, t) && read <= t.read <= u.read && Opens(disk, t.read, u)
    ensures Opens(disk, read, Then(t, u))
  {
    var s := t.ids + u.ids;
    forall id | id in s ensures !IdRead(disk, id, read) && IdRead(disk, id, u.read) {
      if id in t.ids {
        IdStaysRead(disk, id, t.read, u.read);
      } else if IdRead(disk, id, read) {
        IdStaysRead(disk, id, read, t.read);
      }
    }
    forall i, j | 0 <= i < j < |s| ensures s[i] != s[j] {
      if i < |t.ids| <= j {
        assert s[i] in t.ids && s[j] in u.ids;
      }
    }
  }

  /** However files include each other, each is opened at most once. */
  lemma {:induction false} FileOpensOnce(
    disk: Disk, allowed: set<string>, path: string, read: set<string>, mode: Mode, group: nat)
    ensures Opens(disk, read, ReadFile(disk, allowed, path, read, mode, group))
    decreases Unread(disk, read), 0
  {
    if IsFile(disk, path) && !WasRead(disk, path, read) && disk.nodes[path].readable {
      ReadingShrinks(disk, read, path);
      var id := disk.nodes[path].id;
      var t := ReadLines(disk, allowed, path, disk.nodes[path].lines, read + {path}, mode, group);
      LinesOpenOnce(disk, allowed, path, disk.nodes[path].lines, read + {path}, mode, group);
      assert IdRead(disk, id, read + {path}) by { assert path in read + {path}; }
      assert !IdRead(disk, id, read) by { SameFile(disk, path, read); }
      ThenOpens(disk, read, Trace(Yes, read + {path}, [], [id]), t);
    }
  }

  lemma {:induction false} LinesOpenOnce(
    disk: Disk, allowed: set<string>, path: string, lines: seq<string>, read: set<string>, mode: Mode, group: nat)
    ensures Opens(disk, read, ReadLines(disk, allowed, path, lines, read, mode, group))
    decreases Unread(disk, read), |lines|
  {
    if lines != [] {
      match Parse(lines[0])
      case Skip => LinesOpenOnce(disk, allowed, path, lines[1..], read, mode, group);
      case Assignment(_, _) => LinesOpenOnce(disk, allowed, path, lines[1..], read, mode, group);
      case Directive(name, args) =>
        if name !in allowed || !KnownDirective(name) {
          LinesOpenOnce(disk, allowed, path, lines[1..], read, mode, group);
        } else if args.Some? {
          var file := if name == "include" then disk.resolve(path, Trim(args.value)) else Trim(args.value);
          var m, g := if name == "include" then mode else PROPMAP, if name == "include" then 0 else PROPMAP_GROUP;
          FileOpensOnce(disk, allowed, file, read, m, g);
          var d := ReadFile(disk, allowed, file, read, m, g);
          if d.answer == Yes {
            UnreadShrinks(disk, read, d.read);
            LinesOpenOnce(disk, allowed, path, lines[1..], d.read, mode, group);
            ThenOpens(disk, read, d, ReadLines(disk, allowed, path, lines[1..], d.read, mode, group));
          }
        }
    }
  }

  /** Without property maps, all requests of the files have the mode of the load. */
  lemma {:induction false} FileKeepsMode(
    disk: Disk, allowed: set<string>, path: string, read: set<string>, mode: Mode, group: nat)
    requires "propmap" !in allowed
    ensures AllOf(ReadFile(disk, allowed, path, read, mode, group).events, mode)
    decreases Unread(disk, read), 0
  {
    if IsFile(disk, path) && !WasRead(disk, path, read) && disk.nodes[path].readable {
      ReadingShrinks(disk, read, path);
      LinesKeepMode(disk, allowed, path, disk.nodes[path].lines, read + {path}, mode, group);
    }
  }

  ghost predicate AllOf(events: seq<Event>, mode: Mode) {
    forall e :: e in events ==> e.Trouble? || e.mode == mode
  }

  lemma {:induction false} LinesKeepMode(
    disk: Disk, allowed: set<string>, path: string, lines: seq<string>, read: set<string>, mode: Mode, group: nat)
    requires "propmap" !in allowed
    ensures AllOf(ReadLines(disk, allowed, path, lines, read, mode, group).events, mode)
    decreases Unread(disk, read), |lines|
  {
    if lines != [] {
      match Parse(lines[0])
      case Skip => LinesKeepMode(disk, allowed, path, lines[1..], read, mode, group);
      case Assignment(_, _) => LinesKeepMode(disk, allowed, path, lines[1..], read, mode, group);
      case Directive(name, args) =>
        if name !in allowed || !KnownDirective(name) {
          LinesKeepMode(disk, allowed, path, lines[1..], read, mode, group);
        } else if args.Some? {
          var file := disk.resolve(path, Trim(args.value));
          FileKeepsMode(disk, allowed, file, read, mode, 0);
          var d := ReadFile(disk, allowed, file, read, mode, 0);
          UnreadShrinks(disk, read, d.read);
          LinesKeepMode(disk, allowed, path, lines[1..], d.read, mode, group);
        }
    }
  }

  // ---------- what the requests are ----------

  /** A line that is neither an assignment nor a directive that is followed. */
  predicate Idle(allowed: set<string>, line: string) {
    match Parse(line)
    case Skip => true
    case Assignment(_, _) => false
    case Directive(name, _) => !(name in allowed && KnownDirective(name))
  }

  /** The lines follow no directive. */
  predicate Plain(allowed: set<string>, lines: seq<string>) {
    forall line :: line in lines ==> Parse(line).Assignment? || Idle(allowed, line)
  }

  /** The names and values of the lines that are assignments, in order. */
  function Assignments(lines: seq<string>): seq<(string, string)> {
    if lines == [] then []
    else
      (match Parse(lines[0])
       case Assignment(name, value) => [(name, value)]
       case _ => []) + Assignments(lines[1..])
  }

  /** Requests for given names and values, without flags. */
  ghost predicate Asks(events: seq<Event>, pairs: seq<(string, string)>, mode: Mode, group: nat) {
    && |events| == |pairs|
    && forall i :: 0 <= i < |events| ==>
      && events[i].Assign? && events[i].mode == mode && events[i].request.group == group
      && events[i].request.name == pairs[i].0 && events[i].request.value == pairs[i].1
      && events[i].request.flags == NO_FLAGS
  }

  lemma {:induction false} PlainLines(
    disk: Disk, allowed: set<string>, path: string, lines: seq<string>, read: set<string>, mode: Mode, group: nat)
    requires Plain(allowed, lines)
    ensures var t := ReadLines(disk, allowed, path, lines, read, mode, group);
      t.answer == Yes && t.read == read && t.ids == [] && Asks(t.events, Assignments(lines), mode, group)
    decreases |lines|
  {
    if lines != [] {
      assert lines[0] in lines;
      PlainLines(disk, allowed, path, lines[1..], read, mode, group);
    }
  }

  /** A file that follows no directives asks for the names and values of its assignments, in order. */
  lemma PlainFile(disk: Disk, allowed: set<string>, path: string, read: set<string>, mode: Mode, group: nat)
    requires IsFile(disk, path) && disk.nodes[path].readable && !WasRead(disk, path, read)
    requires Plain(allowed, disk.nodes[path].lines)
    ensures var t := ReadFile(disk, allowed, path, read, mode, group);
      && t.answer == Yes && t.read == read + {path} && t.ids == [disk.nodes[path].id]
      && Asks(t.events, Assignments(disk.nodes[path].lines), mode, group)
  {
    ReadingShrinks(disk, read, path);
    PlainLines(disk, allowed, path, disk.nodes[path].lines, read + {path}, mode, group);
  }

  /** A file that cannot be read asks for nothing, and says why. */
  lemma UnreadableFile(disk: Disk, allowed: set<string>, path: string, read: set<string>, mode: Mode, group: nat)
    ensures var t := ReadFile(disk, allowed, path, read, mode, group);
      && (path !in disk.nodes ==> t == Trace(No, read, [Trouble(NoFile(path))], []))
      && (path in disk.nodes && disk.nodes[path].Directory? ==>
            t == Trace(No, read, [Trouble(IsDirectory(path))], []))
      && (IsFile(disk, path) && WasRead(disk, path, read) ==> t == Trace(Yes, read, [], []))
      && (IsFile(disk, path) && !WasRead(disk, path, read) && !disk.nodes[path].readable ==>
            t == Trace(No, read + {path}, [Trouble(CannotOpen(path))], []))
  {
  }

  // ---------- with files that include others ----------

  /** A request as some line makes it. */
  ghost predicate FromLine(e: Event, lines: seq<string>, mode: Mode) {
    && e.Assign? && e.request.flags == NO_FLAGS && e.mode in {mode, PROPMAP}
    && exists line :: line in lines && Parse(line) == Assignment(e.request.name, e.request.value)
  }

  /** Some opened file has a line that makes the request. */
  ghost predicate Sourced(disk: Disk, e: Event, ids: seq<nat>, mode: Mode) {
    exists p :: IsFile(disk, p) && disk.nodes[p].id in ids && FromLine(e, disk.nodes[p].lines, mode)
  }

  /** Every request is an assignment of an opened file, or of one of these lines. */
  ghost predicate AllSourced(disk: Disk, lines: seq<string>, t: Trace, mode: Mode) {
    forall e :: e in t.events && e.Assign? ==> FromLine(e, lines, mode) || Sourced(disk, e, t.ids, mode)
  }

  lemma StillSourced(disk: Disk, e: Event, ids: seq<nat>, more: seq<nat>, m: Mode, mode: Mode)
    requires Sourced(disk, e, ids, m) && (forall id :: id in ids ==> id in more) && m in {mode, PROPMAP}
    ensures Sourced(disk, e, more, mode)
  {
    var p :| IsFile(disk, p) && disk.nodes[p].id in ids && FromLine(e, disk.nodes[p].lines, m);
    assert FromLine(e, disk.nodes[p].lines, mode);
  }

  lemma ThenSourced(disk: Disk, line: string, rest: seq<string>, t: Trace, u: Trace, m: Mode, mode: Mode)
    requires AllSourced(disk, [line], t, m) && AllSourced(disk, rest, u, mode) && m in {mode, PROPMAP}
    ensures AllSourced(disk, [line] + rest, Then(t, u), mode)
  {
    var lines, v := [line] + rest, Then(t, u);
    forall e | e in v.events && e.Assign? ensures FromLine(e, lines, mode) || Sourced(disk, e, v.ids, mode) {
      if e in t.events {
        if Sourced(disk, e, t.ids, m) {
          StillSourced(disk, e, t.ids, v.ids, m, mode);
        } else {
          assert FromLine(e, [line], m) && line in lines;
        }
      } else if Sourced(disk, e, u.ids, mode) {
        StillSourced(disk, e, u.ids, v.ids, mode, mode);
      } else {
        var l :| l in rest && Parse(l) == Assignment(e.request.name, e.request.value);
        assert l in lines;
      }
    }
  }

  /** Every request that reading a file makes is an assignment of a file that was opened. */
  lemma {:induction false} FileSourced(
    disk: Disk, allowed: set<string>, path: string, read: set<string>, mode: Mode, group: nat)
    ensures AllSourced(disk, [], ReadFile(disk, allowed, path, read, mode, group), mode)
    decreases Unread(disk, read), 0
  {
    if IsFile(disk, path) && !WasRead(disk, path, read) && disk.nodes[path].readable {
      ReadingShrinks(disk, read, path);
      var lines := disk.nodes[path].lines;
      LinesSourced(disk, allowed, path, lines, read + {path}, mode, group);
      var u := ReadLines(disk, allowed, path, lines, read + {path}, mode, group);
      var t := ReadFile(disk, allowed, path, read, mode, group);
      forall e | e in t.events && e.Assign? ensures Sourced(disk, e, t.ids, mode) {
        if Sourced(disk, e, u.ids, mode) {
          StillSourced(disk, e, u.ids, t.ids, mode, mode);
        } else {
          assert disk.nodes[path].id in t.ids && FromLine(e, disk.nodes[path].lines, mode);
        }
      }
    }
  }

  lemma {:induction false} LinesSourced(
    disk: Disk, allowed: set<string>, path: string, lines: seq<string>, read: set<string>, mode: Mode, group: nat)
    ensures AllSourced(disk, lines, ReadLines(disk, allowed, path, lines, read, mode, group), mode)
    decreases Unread(disk, read), |lines|
  {
    if lines != [] {
      var line, rest := lines[0], lines[1..];
      var none := Trace(Yes, read, [], []);
      assert lines == [line] + rest;
      match Parse(line)
      case Skip =>
        LinesSourced(disk, allowed, path, rest, read, mode, group);
        ThenSourced(disk, line, rest, none, ReadLines(disk, allowed, path, rest, read, mode, group), mode, mode);
      case Assignment(name, value) =>
        LinesSourced(disk, allowed, path, rest, read, mode, group);
        var first := none.(events := [Assign(Request(name, value, NO_FLAGS, group), mode)]);
        assert line in [line];
        ThenSourced(disk, line, rest, first, ReadLines(disk, allowed, path, rest, read, mode, group), mode, mode);
      case Directive(name, args) =>
        if name !in allowed || !KnownDirective(name) {
          LinesSourced(disk, allowed, path, rest, read, mode, group);
          ThenSourced(disk, line, rest, none, ReadLines(disk, allowed, path, rest, read, mode, group), mode, mode);
        } else if args.Some? {
          var file := if name == "include" then disk.resolve(path, Trim(args.value)) else Trim(args.value);
          var m, g := if name == "include" then mode else PROPMAP, if name == "include" then 0 else PROPMAP_GROUP;
          FileSourced(disk, allowed, file, read, m, g);
          var d := ReadFile(disk, allowed, file, read, m, g);
          DirectiveSourced(disk, line, d, m, mode);
          if d.answer == Yes {
            UnreadShrinks(disk, read, d.read);
            LinesSourced(disk, allowed, path, rest, d.read, mode, group);
            ThenSourced(disk, line, rest, d, ReadLines(disk, allowed, path, rest, d.read, mode, group), m, mode);
          } else {
            ThenSourced(disk, line, rest, d, Trace(d.answer, d.read, [], []), m, mode);
            assert d.events + [] == d.events && d.ids + [] == d.ids;
          }
        }
    }
  }

  lemma DirectiveSourced(disk: Disk, line: string, d: Trace, m: Mode, mode: Mode)
    requires AllSourced(disk, [], d, m)
    ensures AllSourced(disk, [line], d, m)
  {
  }

  /** An assignment was asked for. */
  ghost predicate Requested(line: string, events: seq<Event>) {
    Parse(line).Assignment? ==>
      exists e :: e in events && e.Assign? && Parse(line) == Assignment(e.request.name, e.request.value)
  }

  /** A file with this id was read to its end: all its assignments were asked for. */
  ghost predicate ReadOut(disk: Disk, id: nat, events: seq<Event>) {
    exists p :: IsFile(disk, p) && disk.nodes[p].id == id &&
      forall line :: line in disk.nodes[p].lines ==> Requested(line, events)
  }

  ghost predicate AllReadOut(disk: Disk, t: Trace) {
    forall id :: id in t.ids ==> ReadOut(disk, id, t.events)
  }

  lemma StillRequested(line: string, events: seq<Event>, more: seq<Event>)
    requires Requested(line, events) && forall e :: e in events ==> e in more
    ensures Requested(line, more)
  {
  }

  lemma StillReadOut(disk: Disk, id: nat, events: seq<Event>, more: seq<Event>)
    requires ReadOut(disk, id, events) && forall e :: e in events ==> e in more
    ensures ReadOut(disk, id, more)
  {
    var p :| IsFile(disk, p) && disk.nodes[p].id == id &&
      forall line :: line in disk.nodes[p].lines ==> Requested(line, events);
    forall line | line in disk.nodes[p].lines ensures Requested(line, more) {
      StillRequested(line, events, more);
    }
  }

  lemma ThenReadOut(disk: Disk, t: Trace, u: Trace)
    requires AllReadOut(disk, t) && AllReadOut(disk, u)
    ensures AllReadOut(disk, Then(t, u))
  {
    forall id | id in t.ids + u.ids ensures ReadOut(disk, id, t.events + u.events) {
      if id in t.ids {
        StillReadOut(disk, id, t.events, t.events + u.events);
      } else {
        StillReadOut(disk, id, u.events, t.events + u.events);
      }
    }
  }

  /** All lines read were asked for, in files that were read to their end. */
  ghost predicate LinesOut(disk: Disk, lines: seq<string>, t: Trace) {
    t.answer == Yes ==> AllReadOut(disk, t) && forall line :: line in lines ==> Requested(line, t.events)
  }

  lemma ThenLinesOut(disk: Disk, line: string, rest: seq<string>, t: Trace, u: Trace)
    requires t.answer == Yes && AllReadOut(disk, t) && Requested(line, t.events) && LinesOut(disk, rest, u)
    ensures LinesOut(disk, [line] + rest, Then(t, u))
  {
    var v := Then(t, u);
    if v.answer == Yes {
      ThenReadOut(disk, t, u);
      StillRequested(line, t.events, v.events);
      forall l | l in rest ensures Requested(l, v.events) {
        StillRequested(l, u.events, v.events);
      }
    }
  }

  /** Every assignment of a file that is read to its end is asked for, in all files it includes as well. */
  lemma {:induction false} FileReadOut(
    disk: Disk, allowed: set<string>, path: string, read: set<string>, mode: Mode, group: nat)
    ensures var t := ReadFile(disk, allowed, path, read, mode, group); t.answer == Yes ==> AllReadOut(disk, t)
    decreases Unread(disk, read), 0
  {
    if IsFile(disk, path) && !WasRead(disk, path, read) && disk.nodes[path].readable {
      ReadingShrinks(disk, read, path);
      LinesReadOut(disk, allowed, path, disk.nodes[path].lines, read + {path}, mode, group);
    }
  }

  lemma {:induction false} LinesReadOut(
    disk: Disk, allowed: set<string>, path: string, lines: seq<string>, read: set<string>, mode: Mode, group: nat)
    ensures LinesOut(disk, lines, ReadLines(disk, allowed, path, lines, read, mode, group))
    decreases Unread(disk, read), |lines|
  {
    if lines != [] {
      var line, rest := lines[0], lines[1..];
      assert lines == [line] + rest;
      match Parse(line)
      case Skip => LinesReadOut(disk, allowed, path, rest, read, mode, group);
      case Assignment(name, value) =>
        LinesReadOut(disk, allowed, path, rest, read, mode, group);
        var first := Trace(Yes, read, [Assign(Request(name, value, NO_FLAGS, group), mode)], []);
        assert first.events[0] in first.events;
        ThenLinesOut(disk, line, rest, first, ReadLines(disk, allowed, path, rest, read, mode, group));
      case Directive(name, args) =>
        if name !in allowed || !KnownDirective(name) {
          LinesReadOut(disk, allowed, path, rest, read, mode, group);
        } else if args.Some? {
          var file := if name == "include" then disk.resolve(path, Trim(args.value)) else Trim(args.value);
          var m, g := if name == "include" then mode else PROPMAP, if name == "include" then 0 else PROPMAP_GROUP;
          FileReadOut(disk, allowed, file, read, m, g);
          var d := ReadFile(disk, allowed, file, read, m, g);
          if d.answer == Yes {
            UnreadShrinks(disk, read, d.read);
            LinesReadOut(disk, allowed, path, rest, d.read, mode, group);
            ThenLinesOut(disk, line, rest, d, ReadLines(disk, allowed, path, rest, d.read, mode, group));
          }
        }
    }
  }

  /** The file a directive names: for `include` completed against the current file, in the mode of the load. */
  lemma DirectiveFollowed(
    disk: Disk, allowed: set<string>, path: string, name: string, args: string, read: set<string>, mode: Mode,
    group: nat)
    requires name in allowed
    ensures name == "include" ==>
      ReadLines(disk, allowed, path, ["!" + name + " " + args], read, mode, group)
      == ReadFile(disk, allowed, disk.resolve(path, Trim(args)), read, mode, 0)
    ensures name == "propmap" ==>
      ReadLines(disk, allowed, path, ["!" + name + " " + args], read, mode, group)
      == ReadFile(disk, allowed, Trim(args), read, Mode(false, true, false, true, false, false), 1)
  {
    if name == "include" || name == "propmap" {
      var line := "!" + name + " " + args;
      NoBlankInDirectives();
      DirectiveReads(name, args);
      assert [line][1..] == [];
      var t := ReadLines(disk, allowed, path, [line], read, mode, group);
      assert t.events + [] == t.events;
      var d := if name == "include" then ReadFile(disk, allowed, disk.resolve(path, Trim(args)), read, mode, 0)
               else ReadFile(disk, allowed, Trim(args), read, PROPMAP, PROPMAP_GROUP);
      assert d.events + [] == d.events && d.ids + [] == d.ids;
    }
  }

  lemma NoBlankInDirectives()
    ensures ' ' !in "include" && '\t' !in "include" && ' ' !in "propmap" && '\t' !in "propmap"
  {
  }
}
