/** The configuration object: loading, command line parameters, reloading. */
module ConfigStores {
  import opened Options
  import opened ConfigText
  import opened Configs
  import opened ConfigFiles

  /** The requests the defaults make; aliases are no settings. */
  function DefaultEvents(defaults: seq<Request>, mode: Mode): seq<Event> {
    if defaults == [] then []
    else
      var n := |defaults| - 1;
      DefaultEvents(defaults[..n], mode) + if defaults[n].flags.aliased then [] else [Assign(defaults[n], mode)]
  }

  /** All defaults but the aliases are asked for, and nothing else. */
  lemma {:induction false} DefaultsAsked(defaults: seq<Request>, mode: Mode)
    ensures forall e :: e in DefaultEvents(defaults, mode) <==>
      exists i :: 0 <= i < |defaults| && !defaults[i].flags.aliased && e == Assign(defaults[i], mode)
  {
    if defaults != [] {
      var n := |defaults| - 1;
      DefaultsAsked(defaults[..n], mode);
      forall e
        ensures e in DefaultEvents(defaults, mode) <==>
          exists i :: 0 <= i < |defaults| && !defaults[i].flags.aliased && e == Assign(defaults[i], mode)
      {
        if i :| 0 <= i < |defaults| && !defaults[i].flags.aliased && e == Assign(defaults[i], mode) {
          assert i < n ==> defaults[..n][i] == defaults[i];
        }
        if i :| 0 <= i < n && !defaults[..n][i].flags.aliased && e == Assign(defaults[..n][i], mode) {
          assert defaults[i] == defaults[..n][i];
        }
      }
    }
  }

  /** In order. */
  lemma {:induction false} DefaultsInOrder(a: seq<Request>, b: seq<Request>, mode: Mode)
    ensures DefaultEvents(a + b, mode) == DefaultEvents(a, mode) + DefaultEvents(b, mode)
    decreases |b|
  {
    if b == [] {
      assert a + b == a;
    } else {
      var n := |b| - 1;
      DefaultsInOrder(a, b[..n], mode);
      assert (a + b)[..|a + b| - 1] == a + b[..n] && (a + b)[|a + b| - 1] == b[n];
    }
  }

  lemma {:induction false} DefaultsKeepMode(defaults: seq<Request>, mode: Mode)
    ensures AllOf(DefaultEvents(defaults, mode), mode)
  {
    if defaults != [] {
      DefaultsKeepMode(defaults[..|defaults| - 1], mode);
    }
  }

  /** Whether the main file can be opened; a directory can, and fails only when it is read. */
  predicate CanOpen(disk: Disk, path: string) {
    path in disk.nodes && (disk.nodes[path].Directory? || disk.nodes[path].readable)
  }

  /** Aliases and settings while the defaults are gone through. */
  datatype Setup = Setup(aliases: map<string, string>, state: State)

  function AfterDefault(world: World, s: Setup, request: Request, mode: Mode): Setup {
    if !request.flags.aliased then s.(state := Applied(world, s.aliases, s.state, request, mode))
    else if mode.initializing then
      s.(aliases := s.aliases[Cut(request.name, NAME_SIZE - 1) := Cut(request.value, VALUE_SIZE - 1)])
    else s
  }

  function AfterDefaults(world: World, s: Setup, defaults: seq<Request>, mode: Mode): Setup {
    if defaults == [] then s
    else
      var n := |defaults| - 1;
      AfterDefault(world, AfterDefaults(world, s, defaults[..n], mode), defaults[n], mode)
  }

  /** Later on, going through the defaults makes the requests of the settings among them. */
  lemma {:induction false} DefaultsAgain(world: World, s: Setup, defaults: seq<Request>, mode: Mode)
    requires !mode.initializing
    ensures AfterDefaults(world, s, defaults, mode)
         == s.(state := AllHappened(world, s.aliases, s.state, DefaultEvents(defaults, mode)))
  {
    if defaults != [] {
      var n := |defaults| - 1;
      var events := DefaultEvents(defaults[..n], mode);
      DefaultsAgain(world, s, defaults[..n], mode);
      if defaults[n].flags.aliased {
        assert events + [] == events;
      } else {
        HappenedNext(world, s.aliases, s.state, events, Assign(defaults[n], mode));
      }
    }
  }

  /** At the start every default that is no alias makes its setting, unless it should be a size and is none. */
  lemma {:induction false} DefaultsSet(world: World, s: Setup, defaults: seq<Request>, i: nat)
    requires i < |defaults| && !defaults[i].flags.aliased
    requires defaults[i].flags.size ==> world.isSize(Meant(world, defaults[i].value, defaults[i].flags))
    ensures Target(AfterDefaults(world, s, defaults[..i], INITIAL).aliases, defaults[i].name)
         in AfterDefaults(world, s, defaults, INITIAL).state.settings
  {
    var n := |defaults| - 1;
    if i < n {
      assert defaults[..n][..i] == defaults[..i];
      DefaultsSet(world, s, defaults[..n], i);
    }
  }

  lemma AppliedAt(world: World, aliases: map<string, string>, s: State, request: Request, mode: Mode)
    requires Accepts(world, request, mode, Lookup(s.settings, Target(aliases, request.name)))
    ensures var key := Target(aliases, request.name);
      var flags := Judge(world, request, mode, Lookup(s.settings, key)).flags;
      key in Applied(world, aliases, s, request, mode).settings &&
      Applied(world, aliases, s, request, mode).settings[key]
        == Setting(Stored(world, request, flags), flags, request.group)
  {
  }

  /** The setup in front of default `i`, at the start. */
  function Before(world: World, s: Setup, defaults: seq<Request>, i: nat): Setup
    requires i <= |defaults|
  {
    AfterDefaults(world, s, defaults[..i], INITIAL)
  }

  lemma NextBefore(world: World, s: Setup, defaults: seq<Request>, i: nat)
    requires i < |defaults|
    ensures Before(world, s, defaults, i + 1)
         == AfterDefault(world, Before(world, s, defaults, i), defaults[i], INITIAL)
  {
    assert defaults[..i + 1][..i] == defaults[..i];
  }

  /** The key a default sets; none, for an alias. */
  function Sets(world: World, s: Setup, defaults: seq<Request>, i: nat): Option<string>
    requires i < |defaults|
  {
    if defaults[i].flags.aliased then None
    else Some(Target(Before(world, s, defaults, i).aliases, defaults[i].name))
  }

  lemma OtherDefault(world: World, s: Setup, request: Request, key: string)
    requires request.flags.aliased || Target(s.aliases, request.name) != key
    ensures Lookup(AfterDefault(world, s, request, INITIAL).state.settings, key) == Lookup(s.state.settings, key)
  {
    if !request.flags.aliased {
      AppliedOnly(world, s.aliases, s.state, request, INITIAL);
    }
  }

  lemma NewDefault(world: World, s: Setup, request: Request, key: string)
    requires !request.flags.aliased && Target(s.aliases, request.name) == key && key !in s.state.settings
    requires FitsSize(world, request.value, request.flags)
    ensures Lookup(AfterDefault(world, s, request, INITIAL).state.settings, key)
         == Some(Setting(Stored(world, request, request.flags), request.flags, request.group))
  {
    WhoMaySet(world, request, None);
    AppliedAt(world, s.aliases, s.state, request, INITIAL);
    FlagsKept(world, request, INITIAL, None);
  }

  /** At the start, a setting that only one default makes has the value, the flags and the group of that one. */
  lemma {:induction false} DefaultHolds(
    world: World, s: Setup, defaults: seq<Request>, i: nat, m: nat, key: string)
    requires i < m <= |defaults| && Sets(world, s, defaults, i) == Some(key)
    requires key !in Before(world, s, defaults, i).state.settings
    requires FitsSize(world, defaults[i].value, defaults[i].flags)
    requires forall j :: i < j < m ==> Sets(world, s, defaults, j) != Some(key)
    ensures Lookup(Before(world, s, defaults, m).state.settings, key)
         == Some(Setting(Stored(world, defaults[i], defaults[i].flags), defaults[i].flags, defaults[i].group))
    decreases m
  {
    NextBefore(world, s, defaults, m - 1);
    if i == m - 1 {
      NewDefault(world, Before(world, s, defaults, i), defaults[i], key);
    } else {
      DefaultHolds(world, s, defaults, i, m - 1, key);
      assert Sets(world, s, defaults, m - 1) != Some(key);
      OtherDefault(world, Before(world, s, defaults, m - 1), defaults[m - 1], key);
    }
  }

  /** At the start an alias leads from its name to the name it stands for; later it changes nothing. */
  lemma AliasLeads(world: World, s: Setup, alias: Request, mode: Mode)
    requires alias.flags.aliased && |alias.name| <= 255
    ensures var t := AfterDefault(world, s, alias, mode);
      && t.state == s.state
      && (mode == INITIAL ==> IsFront(Target(t.aliases, alias.name), alias.value, 255))
      && (!mode.initializing ==> t == s)
  {
    assert alias.name == Cut(alias.name, 255);
  }

  /** A file of one line `name=value` leaves a known setting at the trimmed value, if that needs no conversion. */
  lemma OneLineSets(
    world: World, aliases: map<string, string>, s: State, disk: Disk, allowed: set<string>, file: string, name: string,
    value: string, mode: Mode)
    requires IsFile(disk, file) && disk.nodes[file].readable && disk.nodes[file].lines == [name + "=" + value]
    requires name != "" && name[0] != '#' && name[0] != '!' && '=' !in name && Trim(name) == name
    requires var found := Lookup(s.settings, Target(aliases, name));
      found.Some? && !found.value.flags.size && (mode == PLAIN || (mode == RELOAD && found.value.flags.reloadable))
    requires |Trim(value)| <= 1023 && (Trim(value) == "" || Trim(value)[0] != '$')
    ensures var t := AllHappened(world, aliases, s, ReadFile(disk, allowed, file, {}, mode, 0).events);
      && Target(aliases, name) in t.settings && t.settings[Target(aliases, name)].value == Trim(value)
      && t.errors == s.errors
  {
    var line := name + "=" + value;
    AssignmentReads(name, value);
    PlainFile(disk, allowed, file, {}, mode, 0);
    assert Assignments([line]) == [(name, Trim(value))] by { assert [line][1..] == []; }
    var events := ReadFile(disk, allowed, file, {}, mode, 0).events;
    var request := Request(name, Trim(value), NO_FLAGS, 0);
    assert events == [Assign(request, mode)];
    HappenedNext(world, aliases, s, [], Assign(request, mode));
    WhoMaySet(world, request, Lookup(s.settings, Target(aliases, name)));
    AppliedOnly(world, aliases, s, request, mode);
    FlagsKept(world, request, mode, Lookup(s.settings, Target(aliases, name)));
    AppliedAt(world, aliases, s, request, mode);
  }

  class ConfigStore {
    const defaults: seq<Request>
    const allowed: set<string>
    const world: World
    var settings: map<string, Setting>
    var aliases: map<string, string>
    var errors: seq<Complaint>
    var configFile: Option<string>
    var currentFile: string
    var readFiles: set<string>

    function Value(): State
      reads this
    {
      State(settings, errors)
    }

    constructor (defaults: seq<Request>, allowed: set<string>, world: World)
      ensures this.defaults == defaults && this.allowed == allowed && this.world == world
      ensures configFile == None && readFiles == {}
      ensures Setup(aliases, Value()) == AfterDefaults(world, Setup(map[], State(map[], [])), defaults, INITIAL)
    {
      this.defaults, this.allowed, this.world := defaults, allowed, world;
      settings, aliases, errors, configFile, currentFile, readFiles := map[], map[], [], None, "", {};
      new;
      InitDefaults(INITIAL);
    }

    /** Does or refuses one request. */
    method AddSetting(request: Request, mode: Mode) returns (ok: bool)
      modifies this`settings, this`errors
      ensures Value() == Applied(world, aliases, old(Value()), request, mode)
      ensures ok == match Judge(world, request, mode, Lookup(old(settings), Target(aliases, request.name)))
        case Accepted(_) => true
        case Refused(_, answer) => answer
    {
      var key := Target(aliases, request.name);
      var flags := request.flags;
      if key !in settings {
        if !mode.unknown {
          errors := errors + [Unknown(request.name)];
          return true;
        }
      } else {
        var found := settings[key];
        if mode.overwriteGroup {
          if found.group != request.group {
            errors := errors + [OtherGroup(request.name)];
            return false;
          }
        } else if mode.overwriteReload {
          if !found.flags.reloadable {
            return false;
          }
        } else if !mode.overwrite {
          errors := errors + [NotOverridable(request.name)];
          return false;
        }
        flags := found.flags;
        if mode.parameter {
          flags := flags.(reloadable := false);
        }
      }
      if flags.size && !world.isSize(Meant(world, request.value, flags)) {
        errors := errors + [NotASize(request.name)];
        return false;
      }
      settings := settings[key := Setting(Stored(world, request, flags), flags, request.group)];
      ok := true;
    }

    /** One default: an alias, which counts at the start only, or a setting. */
    method InitDefault(request: Request, mode: Mode)
      modifies this`settings, this`errors, this`aliases
      ensures Setup(aliases, Value()) == AfterDefault(world, old(Setup(aliases, Value())), request, mode)
    {
      if request.flags.aliased {
        if mode.initializing {
          aliases := aliases[Cut(request.name, NAME_SIZE - 1) := Cut(request.value, VALUE_SIZE - 1)];
        }
      } else {
        var ok := AddSetting(request, mode);
      }
    }

    /** The loop over the defaults. */
    method InitDefaults(mode: Mode)
      modifies this`settings, this`errors, this`aliases
      ensures Setup(aliases, Value()) == AfterDefaults(world, old(Setup(aliases, Value())), defaults, mode)
    {
      var i := 0;
      while i < |defaults|
        invariant 0 <= i <= |defaults|
        invariant Setup(aliases, Value()) == AfterDefaults(world, old(Setup(aliases, Value())), defaults[..i], mode)
      {
        assert defaults[..i + 1][..i] == defaults[..i];
        InitDefault(defaults[i], mode);
        i := i + 1;
      }
      assert defaults[..|defaults|] == defaults;
    }

    /** Reads a file and those it includes; the current file is what it was before. */
    method ReadConfigFile(disk: Disk, file: string, mode: Mode, group: nat) returns (answer: Answer)
      modifies this`settings, this`errors, this`currentFile, this`readFiles
      ensures var t := ReadFile(disk, allowed, file, old(readFiles), mode, group);
        answer == t.answer && readFiles == t.read && Value() == AllHappened(world, aliases, old(Value()), t.events)
      ensures answer != Thrown ==> currentFile == old(currentFile)
      decreases Unread(disk, readFiles), 0
    {
      var prevFile := currentFile;
      currentFile := file;
      if file !in disk.nodes {
        errors := errors + [NoFile(file)];
        answer := No;
      } else if disk.nodes[file].Directory? {
        errors := errors + [IsDirectory(file)];
        answer := No;
      } else if WasRead(disk, file, readFiles) {
        answer := Yes;
      } else {
        ReadingShrinks(disk, readFiles, file);
        readFiles := readFiles + {file};
        if !disk.nodes[file].readable {
          errors := errors + [CannotOpen(file)];
          answer := No;
        } else {
          answer := ReadAllLines(disk, disk.nodes[file].lines, mode, group);
        }
      }
      if answer != Thrown {
        currentFile := prevFile;
      }
    }

    /** The loop over the lines of the current file. */
    method ReadAllLines(disk: Disk, lines: seq<string>, mode: Mode, group: nat) returns (answer: Answer)
      modifies this`settings, this`errors, this`currentFile, this`readFiles
      ensures var t := ReadLines(disk, allowed, old(currentFile), lines, old(readFiles), mode, group);
        answer == t.answer && readFiles == t.read && Value() == AllHappened(world, aliases, old(Value()), t.events)
      ensures answer != Thrown ==> currentFile == old(currentFile)
      decreases Unread(disk, readFiles), 2
    {
      var i := 0;
      ghost var t, path := Trace(Yes, readFiles, [], []), currentFile;
      ghost var all := ReadLines(disk, allowed, path, lines, readFiles, mode, group);
      while i < |lines|
        invariant 0 <= i <= |lines| && currentFile == path && old(readFiles) <= readFiles == t.read && t.answer == Yes
        invariant Value() == AllHappened(world, aliases, old(Value()), t.events)
        invariant all == Then(t, ReadLines(disk, allowed, path, lines[i..], readFiles, mode, group))
      {
        ghost var u;
        UnreadShrinks(disk, old(readFiles), readFiles);
        assert lines[i..] == [lines[i]] + lines[i + 1..];
        answer, u := DoLine(disk, lines[i], lines[i + 1..], mode, group);
        HappenedTogether(world, aliases, old(Value()), t.events, u.events);
        if answer != Yes {
          return;
        }
        ThenTogether(t, u, ReadLines(disk, allowed, path, lines[i + 1..], readFiles, mode, group));
        t := Then(t, u);
        i := i + 1;
      }
      assert lines[i..] == [] && t.events + [] == t.events;
      answer := Yes;
    }

    /** One line; `t` is what it contributes to the trace. */
    method DoLine(disk: Disk, line: string, ghost rest: seq<string>, mode: Mode, group: nat)
      returns (answer: Answer, ghost t: Trace)
      modifies this`settings, this`errors, this`currentFile, this`readFiles
      ensures answer == t.answer && readFiles == t.read && old(readFiles) <= readFiles
      ensures Value() == AllHappened(world, aliases, old(Value()), t.events)
      ensures answer != Thrown ==> currentFile == old(currentFile)
      ensures ReadLines(disk, allowed, old(currentFile), [line] + rest, old(readFiles), mode, group)
           == if answer == Yes then
                Then(t, ReadLines(disk, allowed, old(currentFile), rest, readFiles, mode, group))
              else t
      decreases Unread(disk, readFiles), 1
    {
      answer, t := Yes, Trace(Yes, readFiles, [], []);
      assert ([line] + rest)[1..] == rest;
      match Parse(line)
      case Skip =>
      case Assignment(name, value) =>
        var request := Request(name, value, NO_FLAGS, group);
        t := t.(events := [Assign(request, mode)]);
        HappenedNext(world, aliases, Value(), [], Assign(request, mode));
        var ok := AddSetting(request, mode);
      case Directive(name, args) =>
        if name in allowed && KnownDirective(name) {
          if args.None? {
            return Thrown, t.(answer := Thrown);
          }
          if name == "include" {
            t := ReadFile(disk, allowed, disk.resolve(currentFile, Trim(args.value)), readFiles, mode, 0);
            answer := ReadConfigFile(disk, disk.resolve(currentFile, Trim(args.value)), mode, 0);
          } else {
            t := ReadFile(disk, allowed, Trim(args.value), readFiles, PROPMAP, PROPMAP_GROUP);
            answer := ReadConfigFile(disk, Trim(args.value), PROPMAP, PROPMAP_GROUP);
          }
        }
    }

    /** Reads the configuration file from the start. */
    method InitConfigFile(disk: Disk, mode: Mode) returns (answer: Answer, ghost events: seq<Event>)
      requires readFiles == {}
      modifies this`settings, this`errors, this`currentFile, this`readFiles
      ensures events == if configFile == None then [] else ReadFile(disk, allowed, configFile.value, {}, mode, 0).events
      ensures configFile == None ==> answer == No
      ensures configFile != None ==> answer == ReadFile(disk, allowed, configFile.value, {}, mode, 0).answer
      ensures Value() == AllHappened(world, aliases, old(Value()), events)
      ensures answer != Thrown ==> readFiles == {} && currentFile == old(currentFile)
    {
      if configFile == None {
        return No, [];
      }
      events := ReadFile(disk, allowed, configFile.value, {}, mode, 0).events;
      answer := ReadConfigFile(disk, configFile.value, mode, 0);
      if answer != Thrown {
        readFiles := {};
      }
    }

    method LoadSettings(disk: Disk, file: string) returns (answer: Answer, ghost events: seq<Event>)
      requires readFiles == {}
      modifies this`settings, this`errors, this`currentFile, this`readFiles, this`configFile
      ensures configFile == Some(file) && events == ReadFile(disk, allowed, file, {}, PLAIN, 0).events
      ensures Value() == AllHappened(world, aliases, old(Value()), events)
      ensures answer == ReadFile(disk, allowed, file, {}, PLAIN, 0).answer
      ensures answer != Thrown ==> readFiles == {} && currentFile == old(currentFile)
    {
      configFile := Some(file);
      answer, events := InitConfigFile(disk, PLAIN);
    }

    /**
     Goes back to the defaults and reads the files again.  Settings that are not reloadable stay
     as they are; of the others, the last accepted request counts, that of the default or of a line.
     */
    method ReloadSettings(disk: Disk) returns (answer: Answer, ghost events: seq<Event>)
      requires readFiles == {}
      modifies this`settings, this`errors, this`currentFile, this`readFiles, this`aliases
      ensures aliases == old(aliases)
      ensures configFile == None ==> answer == No && Value() == old(Value())
      ensures configFile != None && configFile.value !in disk.nodes ==> answer == No && Value() == old(Value())
      ensures configFile != None && IsFile(disk, configFile.value) && !disk.nodes[configFile.value].readable ==>
        answer == No && Value() == old(Value())
      ensures (configFile != None && configFile.value in disk.nodes &&
               (disk.nodes[configFile.value].Directory? || disk.nodes[configFile.value].readable)) ==>
        && answer == ReadFile(disk, allowed, configFile.value, {}, RELOAD, 0).answer
        && events == DefaultEvents(defaults, RELOAD) + ReadFile(disk, allowed, configFile.value, {}, RELOAD, 0).events
        && Value() == AllHappened(world, aliases, old(Value()), events)
        && ("propmap" !in allowed ==> Reloaded(old(settings), settings, events))
      ensures answer != Thrown ==> readFiles == {} && currentFile == old(currentFile)
    {
      answer, events := No, [];
      if configFile != None && CanOpen(disk, configFile.value) {
        ghost var before := Value();
        DefaultsAgain(world, Setup(aliases, before), defaults, RELOAD);
        InitDefaults(RELOAD);
        ghost var more;
        answer, more := InitConfigFile(disk, RELOAD);
        events := DefaultEvents(defaults, RELOAD) + more;
        HappenedTogether(world, aliases, before, DefaultEvents(defaults, RELOAD), more);
        if "propmap" !in allowed {
          FileKeepsMode(disk, allowed, configFile.value, {}, RELOAD, 0);
          DefaultsKeepMode(defaults, RELOAD);
          IsReloaded(before, events);
        }
      }
    }

    /** The settings after a reload with these requests. */
    ghost predicate Reloaded(before: map<string, Setting>, after: map<string, Setting>, events: seq<Event>)
      reads this`aliases
    {
      && Preserved(before, after)
      && forall key :: key in before && before[key].flags.reloadable ==>
        after[key].value == LastValue(world, aliases, events, key, before[key].flags, before[key].value)
    }

    lemma IsReloaded(s: State, events: seq<Event>)
      requires OnlyReload(events)
      ensures Reloaded(s.settings, AllHappened(world, aliases, s, events).settings, events)
    {
      ReloadPreserves(world, aliases, s, events);
      forall key | key in s.settings && s.settings[key].flags.reloadable
        ensures AllHappened(world, aliases, s, events).settings[key].value
             == LastValue(world, aliases, events, key, s.settings[key].flags, s.settings[key].value)
      {
        LastWins(world, aliases, s, events, key);
      }
    }
  }

  lemma ThenTogether(t: Trace, u: Trace, v: Trace)
    ensures Then(Then(t, u), v) == Then(t, Then(u, v))
  {
  }

  lemma HappenedNext(world: World, aliases: map<string, string>, s: State, events: seq<Event>, e: Event)
    ensures AllHappened(world, aliases, s, events + [e]) ==
      Happened(world, aliases, AllHappened(world, aliases, s, events), e)
  {
    HappenedTogether(world, aliases, s, events, [e]);
    var t := AllHappened(world, aliases, s, events);
    assert AllHappened(world, aliases, t, [e]) == AllHappened(world, aliases, Happened(world, aliases, t, e), []);
  }
}
