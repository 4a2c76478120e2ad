/** Settings with defaults, files that include others, command line parameters and reloading. */
module Configs {
  import opened Options

  datatype Flags = Flags(aliased: bool, reloadable: bool, unused: bool, nonEmpty: bool, exact: bool, size: bool)

  /** A setting as it is asked for: by a default, a line or a parameter. */
  datatype Request = Request(name: string, value: string, flags: Flags, group: nat)

  datatype Setting = Setting(value: string, flags: Flags, group: nat)

  /** What a request may do. */
  datatype Mode = Mode(initializing: bool, unknown: bool, overwrite: bool, overwriteGroup: bool,
    overwriteReload: bool, parameter: bool)

  datatype Complaint =
    | Unknown(name: string)
    | NotOverridable(name: string)
    | OtherGroup(name: string)
    | NotASize(name: string)
    | NoFile(path: string) | IsDirectory(path: string) | CannotOpen(path: string) | EmptyParameter(name: string)

  /** Sizes and the environment, which this model does not look into. */
  datatype World = World(env: string -> Option<string>, isSize: string -> bool, sizeText: string -> string)

  datatype State = State(settings: map<string, Setting>, errors: seq<Complaint>)

  datatype Event = Assign(request: Request, mode: Mode) | Trouble(complaint: Complaint)

  const NO_FLAGS := Flags(false, false, false, false, false, false)
  const PLAIN := Mode(false, false, true, false, false, false)
  const INITIAL := Mode(true, true, true, false, false, false)
  const RELOAD := Mode(false, false, false, false, true, false)
  const PARAMETER := Mode(false, false, true, false, false, true)
  const PROPMAP := Mode(false, true, false, true, false, false)
  const PROPMAP_GROUP := 1
  const NAME_SIZE := 256
  const VALUE_SIZE := 1024

  function Cut(s: string, n: nat): (r: string)
    ensures r <= s && |r| <= n
  {
    if |s| > n then s[..n] else s
  }

  /** The name a request means, through an alias. */
  function Target(aliases: map<string, string>, name: string): string {
    if |name| < NAME_SIZE && name in aliases then Cut(aliases[name], NAME_SIZE - 1) else Cut(name, NAME_SIZE - 1)
  }

  /** The value asked for, from the environment if it starts with a dollar sign. */
  function Meant(world: World, value: string, flags: Flags): string {
    if FromEnv(value, flags) && world.env(value[1..]).Some? then world.env(value[1..]).value else value
  }

  predicate FromEnv(value: string, flags: Flags) {
    value != "" && value[0] == '$' && !flags.exact
  }

  /** What is stored: a size in bytes or the text; a value from the environment is not converted for a line's sake. */
  function Stored(world: World, request: Request, flags: Flags): string {
    var value := Meant(world, request.value, flags);
    if (if FromEnv(request.value, flags) then request.flags.size else flags.size) then world.sizeText(value)
    else Cut(value, VALUE_SIZE - 1)
  }

  datatype Verdict = Accepted(flags: Flags) | Refused(complaint: Option<Complaint>, answer: bool)

  /** Whether a request may set its target, and the flags the setting has then. */
  function Judge(world: World, request: Request, mode: Mode, found: Option<Setting>): Verdict {
    if found.None? && !mode.unknown then Refused(Some(Unknown(request.name)), true)
    else if found.Some? && mode.overwriteGroup && found.value.group != request.group then
      Refused(Some(OtherGroup(request.name)), false)
    else if found.Some? && !mode.overwriteGroup && mode.overwriteReload && !found.value.flags.reloadable then
      Refused(None, false)
    else if found.Some? && !mode.overwriteGroup && !mode.overwriteReload && !mode.overwrite then
      Refused(Some(NotOverridable(request.name)), false)
    else
      var flags := if found.None? then request.flags
                   else if mode.parameter then found.value.flags.(reloadable := false) else found.value.flags;
      if flags.size && !world.isSize(Meant(world, request.value, flags)) then
        Refused(Some(NotASize(request.name)), false)
      else Accepted(flags)
  }

  function Lookup(m: map<string, Setting>, key: string): Option<Setting> {
    if key in m then Some(m[key]) else None
  }

  /** One request, done or refused. */
  function Applied(world: World, aliases: map<string, string>, s: State, request: Request, mode: Mode): State {
    var key := Target(aliases, request.name);
    match Judge(world, request, mode, Lookup(s.settings, key))
    case Accepted(flags) =>
      s.(settings := s.settings[key := Setting(Stored(world, request, flags), flags, request.group)])
    case Refused(None, _) => s
    case Refused(Some(c), _) => s.(errors := s.errors + [c])
  }

  function Happened(world: World, aliases: map<string, string>, s: State, e: Event): State {
    match e
    case Assign(request, mode) => Applied(world, aliases, s, request, mode)
    case Trouble(c) => s.(errors := s.errors + [c])
  }

  function AllHappened(world: World, aliases: map<string, string>, s: State, events: seq<Event>): State
    decreases |events|
  {
    if events == [] then s else AllHappened(world, aliases, Happened(world, aliases, s, events[0]), events[1..])
  }

  lemma {:induction false} HappenedTogether(
    world: World, aliases: map<string, string>, s: State, a: seq<Event>, b: seq<Event>)
    ensures AllHappened(world, aliases, s, a + b) == AllHappened(world, aliases, AllHappened(world, aliases, s, a), b)
    decreases |a|
  {
    if a == [] {
      assert a + b == b;
    } else {
      assert (a + b)[1..] == a[1..] + b;
      HappenedTogether(world, aliases, Happened(world, aliases, s, a[0]), a[1..], b);
    }
  }

  // ---------- what a reload can do ----------

  /** Only requests that may overwrite reloadable settings. */
  predicate OnlyReload(events: seq<Event>) {
    forall e :: e in events ==> e.Trouble? || e.mode == RELOAD
  }

  /** No setting comes or goes, none changes its flags, and those that are not reloadable stay as they are. */
  ghost predicate Preserved(before: map<string, Setting>, after: map<string, Setting>) {
    before.Keys == after.Keys &&
    forall key :: key in before ==>
      after[key].flags == before[key].flags && (before[key].flags.reloadable || after[key] == before[key])
  }

  lemma {:induction false} ReloadPreserves(world: World, aliases: map<string, string>, s: State, events: seq<Event>)
    requires OnlyReload(events)
    ensures Preserved(s.settings, AllHappened(world, aliases, s, events).settings)
    decreases |events|
  {
    if events != [] {
      assert events[0] in events;
      ReloadPreserves(world, aliases, Happened(world, aliases, s, events[0]), events[1..]);
    }
  }

  /** A request for `key` that a reload accepts: of a size, if the setting is one. */
  predicate Counts(world: World, aliases: map<string, string>, e: Event, key: string, flags: Flags) {
    e.Assign? && Target(aliases, e.request.name) == key
    && !(flags.size && !world.isSize(Meant(world, e.request.value, flags)))
  }

  /** The value the last such request asks for. */
  function LastValue(
    world: World, aliases: map<string, string>, events: seq<Event>, key: string, flags: Flags,
    otherwise: string): string
    decreases |events|
  {
    if events == [] then otherwise
    else
      var n := |events| - 1;
      if Counts(world, aliases, events[n], key, flags) then Stored(world, events[n].request, flags)
      else LastValue(world, aliases, events[..n], key, flags, otherwise)
  }

  /** After a reload, a reloadable setting has the value that was asked for last. */
  lemma {:induction false} LastWins(
    world: World, aliases: map<string, string>, s: State, events: seq<Event>, key: string)
    requires OnlyReload(events) && key in s.settings && s.settings[key].flags.reloadable
    ensures key in AllHappened(world, aliases, s, events).settings
    ensures AllHappened(world, aliases, s, events).settings[key].value
         == LastValue(world, aliases, events, key, s.settings[key].flags, s.settings[key].value)
    decreases |events|
  {
    ReloadPreserves(world, aliases, s, events);
    if events != [] {
      var n := |events| - 1;
      LastWins(world, aliases, s, events[..n], key);
      ReloadPreserves(world, aliases, s, events[..n]);
      assert events == events[..n] + [events[n]];
      HappenedTogether(world, aliases, s, events[..n], [events[n]]);
      var t := AllHappened(world, aliases, s, events[..n]);
      assert AllHappened(world, aliases, t, [events[n]]) == Happened(world, aliases, t, events[n]);
      assert events[n] in events;
    }
  }

  // ---------- who may set what ----------

  /** A value that fits: a number, where a size is wanted. */
  predicate FitsSize(world: World, value: string, flags: Flags) {
    flags.size ==> world.isSize(Meant(world, value, flags))
  }

  predicate Accepts(world: World, request: Request, mode: Mode, found: Option<Setting>) {
    Judge(world, request, mode, found).Accepted?
  }

  /**
   The defaults and property maps make settings; files and parameters set only what is known; a
   reload sets only what is reloadable, and a property map only what is of its own group.
   */
  lemma WhoMaySet(world: World, request: Request, found: Option<Setting>)
    ensures found == None ==>
      var fits := FitsSize(world, request.value, request.flags);
      && (Accepts(world, request, INITIAL, found) <==> fits) && (Accepts(world, request, PROPMAP, found) <==> fits)
      && !Accepts(world, request, PLAIN, found) && !Accepts(world, request, PARAMETER, found)
      && !Accepts(world, request, RELOAD, found)
    ensures found.Some? ==>
      var fits := FitsSize(world, request.value, found.value.flags);
      && (Accepts(world, request, INITIAL, found) <==> fits) && (Accepts(world, request, PLAIN, found) <==> fits)
      && (Accepts(world, request, PARAMETER, found) <==> fits)
      && (Accepts(world, request, RELOAD, found) <==> fits && found.value.flags.reloadable)
      && (Accepts(world, request, PROPMAP, found) <==> fits && found.value.group == request.group)
  {
  }

  /** What is complained of, and answered, when a request is refused. */
  lemma WhyRefused(world: World, request: Request, found: Option<Setting>)
    ensures found == None ==>
      forall mode :: mode in {PLAIN, PARAMETER, RELOAD} ==>
        Judge(world, request, mode, found) == Refused(Some(Unknown(request.name)), true)
    ensures found.Some? && !found.value.flags.reloadable ==>
      Judge(world, request, RELOAD, found) == Refused(None, false)
    ensures found.Some? && found.value.group != request.group ==>
      Judge(world, request, PROPMAP, found) == Refused(Some(OtherGroup(request.name)), false)
    ensures found.Some? && !FitsSize(world, request.value, found.value.flags) ==>
      forall mode :: mode in {INITIAL, PLAIN, PARAMETER} ==>
        Judge(world, request, mode, found) == Refused(Some(NotASize(request.name)), false)
  {
  }

  /** A setting keeps its flags, but a parameter takes it out of reloads; a new one has those of the request. */
  lemma FlagsKept(world: World, request: Request, mode: Mode, found: Option<Setting>)
    requires Accepts(world, request, mode, found)
    ensures var flags := Judge(world, request, mode, found).flags;
      if found == None then flags == request.flags
      else if mode == PARAMETER then flags == found.value.flags.(reloadable := false)
      else !mode.parameter ==> flags == found.value.flags
  {
  }

  /** At most `n` characters, the first ones. */
  ghost predicate IsFront(r: string, s: string, n: nat) {
    r <= s && |r| == if |s| < n then |s| else n
  }

  /** The text a value stands for: that of the environment behind a dollar sign, if there is one. */
  lemma MeantText(world: World, value: string, flags: Flags)
    ensures value == "" || value[0] != '$' || flags.exact ==> Meant(world, value, flags) == value
    ensures forall name: string :: value == "$" + name && !flags.exact ==>
      Meant(world, value, flags) == if world.env(name).Some? then world.env(name).value else value
  {
    forall name: string | value == "$" + name && !flags.exact
      ensures Meant(world, value, flags) == if world.env(name).Some? then world.env(name).value else value
    {
      assert value[1..] == name;
    }
  }

  /** What is stored: the first 1023 characters of that text, or its number of bytes for a size. */
  lemma StoredText(world: World, request: Request, flags: Flags)
    ensures var env := request.value != "" && request.value[0] == '$' && !flags.exact;
      var text := Meant(world, request.value, flags);
      if (env && request.flags.size) || (!env && flags.size)
      then Stored(world, request, flags) == world.sizeText(text)
      else IsFront(Stored(world, request, flags), text, 1023)
  {
  }

  /** The key of a setting: the first 255 characters of the name, or of what it is an alias of. */
  lemma TargetText(aliases: map<string, string>, name: string)
    ensures IsFront(Target(aliases, name), if |name| <= 255 && name in aliases then aliases[name] else name, 255)
  {
  }

  /** An accepted request sets its target, and nothing else; a refused one only complains. */
  lemma AppliedOnly(world: World, aliases: map<string, string>, s: State, request: Request, mode: Mode)
    ensures var key := Target(aliases, request.name);
      var t := Applied(world, aliases, s, request, mode);
      && (forall k :: k != key ==> Lookup(t.settings, k) == Lookup(s.settings, k))
      && if Accepts(world, request, mode, Lookup(s.settings, key))
         then
           && t.errors == s.errors && key in t.settings && t.settings[key].group == request.group
           && t.settings[key].value == Stored(world, request, t.settings[key].flags)
         else t.settings == s.settings && s.errors <= t.errors && |t.errors| <= |s.errors| + 1
  {
  }
}
