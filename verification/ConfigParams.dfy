/** Command line parameters: long options are requests, everything else moves behind them. */
module ConfigParams {
  import opened Options
  import opened ConfigText
  import opened Configs
  import opened ConfigStores

  type Arg = Option<string>

  predicate IsLong(s: string) {
    |s| >= 2 && s[0] == '-' && s[1] == '-'
  }

  /** Long options stay in front, and so do null pointers. */
  predicate Stays(a: Arg) {
    a.None? || IsLong(a.value)
  }

  function Underscored(s: string): (r: string)
    ensures |r| == |s| && forall i :: 0 <= i < |s| ==> r[i] == if s[i] == '-' then '_' else s[i]
  {
    seq(|s|, i requires 0 <= i < |s| => if s[i] == '-' then '_' else s[i])
  }

  /** What a long option asks for. */
  function Wish(s: string): Event
    requires IsLong(s)
  {
    match Find(s, c => c == '=', 2)
    case Some(eq) => Assign(Request(Underscored(Trim(s[2..eq])), Trim(s[eq + 1..]), NO_FLAGS, 0), PARAMETER)
    case None => Trouble(EmptyParameter(s[2..]))
  }

  function WishOf(a: Arg): seq<Event> {
    if a.Some? && IsLong(a.value) then [Wish(a.value)] else []
  }

  function Wishes(args: seq<Arg>): seq<Event> {
    if args == [] then [] else Wishes(args[..|args| - 1]) + WishOf(args[|args| - 1])
  }

  function Staying(args: seq<Arg>): seq<Arg> {
    if args == [] then []
    else
      var a := args[|args| - 1];
      Staying(args[..|args| - 1]) + if Stays(a) then [a] else []
  }

  /** The others, the last one first. */
  function Moved(args: seq<Arg>): seq<Arg> {
    if args == [] then []
    else
      var a := args[|args| - 1];
      (if Stays(a) then [] else [a]) + Moved(args[..|args| - 1])
  }

  /** The option `--name=value` asks for the trimmed value, under the name with underscores for dashes. */
  lemma OptionReads(name: string, value: string)
    requires '=' !in name
    ensures IsLong("--" + name + "=" + value)
    ensures Wish("--" + name + "=" + value)
         == Assign(Request(Underscored(Trim(name)), Trim(value), NO_FLAGS, 0),
                   Mode(false, false, true, false, false, true))
  {
    var s := "--" + name + "=" + value;
    assert s[|name| + 2] == '=' && forall i :: 2 <= i < |name| + 2 ==> s[i] == name[i - 2];
    assert s[2..|name| + 2] == name && s[|name| + 3..] == value;
  }

  /** An option without a value is complained of. */
  lemma OptionEmpty(name: string)
    requires '=' !in name
    ensures IsLong("--" + name) && Wish("--" + name) == Trouble(EmptyParameter(name))
  {
    var s := "--" + name;
    assert s[2..] == name && forall i :: 2 <= i < |s| ==> s[i] == name[i - 2];
  }

  /** One argument: a long option or a null pointer stays, any other moves; only the option asks for something. */
  lemma OneArg(a: Arg)
    ensures a == None || (|a.value| >= 2 && a.value[..2] == "--") ==> Staying([a]) == [a] && Moved([a]) == []
    ensures a != None && !(|a.value| >= 2 && a.value[..2] == "--") ==>
      Staying([a]) == [] && Moved([a]) == [a] && Wishes([a]) == []
    ensures a != None && IsLong(a.value) ==> Wishes([a]) == [Wish(a.value)]
    ensures a == None ==> Wishes([a]) == []
  {
    assert [a][..0] == [];
    if a != None && |a.value| >= 2 {
      assert a.value[..2][0] == a.value[0] && a.value[..2][1] == a.value[1];
    }
  }

  lemma OneMore(front: seq<Arg>, a: Arg)
    ensures Staying(front + [a]) == Staying(front) + Staying([a]) && Moved(front + [a]) == Moved([a]) + Moved(front)
    ensures Wishes(front + [a]) == Wishes(front) + Wishes([a])
  {
    var all := front + [a];
    assert all[..|front|] == front && all[|front|] == a && [a][..0] == [];
    assert Staying([a]) == (if Stays(a) then [a] else []) && Moved([a]) == (if Stays(a) then [] else [a]);
    assert Wishes([a]) == WishOf(a);
  }

  lemma Regrouped<T>(a: seq<T>, b: seq<T>, c: seq<T>)
    ensures (a + b) + c == a + (b + c)
  {
  }

  /** Where the arguments of two lists end up, if it is known for those but the last one. */
  lemma TogetherStep(a: seq<Arg>, front: seq<Arg>, last: Arg)
    requires Staying(a + front) == Staying(a) + Staying(front) && Moved(a + front) == Moved(front) + Moved(a)
    requires Wishes(a + front) == Wishes(a) + Wishes(front)
    ensures Staying(a + (front + [last])) == Staying(a) + Staying(front + [last])
    ensures Moved(a + (front + [last])) == Moved(front + [last]) + Moved(a)
    ensures Wishes(a + (front + [last])) == Wishes(a) + Wishes(front + [last])
  {
    Regrouped(a, front, [last]);
    OneMore(a + front, last);
    OneMore(front, last);
    Regrouped(Staying(a), Staying(front), Staying([last]));
    Regrouped(Moved([last]), Moved(front), Moved(a));
    Regrouped(Wishes(a), Wishes(front), Wishes([last]));
  }

  /** Options and requests keep their order; the other arguments are turned round. */
  lemma {:induction false} ArgsTogether(a: seq<Arg>, b: seq<Arg>)
    ensures Staying(a + b) == Staying(a) + Staying(b) && Moved(a + b) == Moved(b) + Moved(a)
    ensures Wishes(a + b) == Wishes(a) + Wishes(b)
    decreases |b|
  {
    if b == [] {
      assert a + b == a;
    } else {
      ArgsTogether(a, b[..|b| - 1]);
      TogetherStep(a, b[..|b| - 1], b[|b| - 1]);
      assert b[..|b| - 1] + [b[|b| - 1]] == b;
    }
  }

  lemma Between(s: seq<Arg>, a: Arg, m: seq<Arg>)
    ensures multiset((s + [a]) + m) == multiset(s + m) + multiset{a}
    ensures multiset(s + ([a] + m)) == multiset(s + m) + multiset{a}
  {
    assert s + ([a] + m) == (s + [a]) + m;
  }

  /** Nothing is lost. */
  lemma {:induction false} SameArgs(args: seq<Arg>)
    ensures multiset(Staying(args) + Moved(args)) == multiset(args)
    ensures (forall a :: a in Staying(args) ==> Stays(a)) && (forall a :: a in Moved(args) ==> !Stays(a))
  {
    if args != [] {
      var front, a := args[..|args| - 1], args[|args| - 1];
      SameArgs(front);
      Between(Staying(front), a, Moved(front));
      assert args == front + [a];
    }
  }

  lemma NextArg(args: seq<Arg>, p: nat)
    requires p < |args|
    ensures Staying(args[..p + 1]) == Staying(args[..p]) + if Stays(args[p]) then [args[p]] else []
    ensures Moved(args[..p + 1]) == (if Stays(args[p]) then [] else [args[p]]) + Moved(args[..p])
    ensures Wishes(args[..p + 1]) == Wishes(args[..p]) + WishOf(args[p])
  {
    assert args[..p + 1][..p] == args[..p];
  }

  /** What is where after `p` arguments: stayed, still to be looked at, moved. */
  ghost predicate Arranged(now: seq<Arg>, args: seq<Arg>, p: nat, i: nat, argc: nat) {
    && p <= |args| == |now| && i <= argc <= |now| && p == i + (|now| - argc)
    && now[..i] == Staying(args[..p]) && now[i..argc] == args[p..] && now[argc..] == Moved(args[..p])
  }

  /** Moves the element at `i` to `last`, and those between one place forward. */
  method MoveToEnd(argv: array<Arg>, i: nat, last: nat)
    requires i <= last < argv.Length
    modifies argv
    ensures argv[..] == old(argv[..i] + argv[i + 1..last + 1] + [argv[i]] + argv[last + 1..])
  {
    var arg := argv[i];
    var j := i;
    while j < last
      invariant i <= j <= last
      invariant forall k :: 0 <= k < argv.Length ==> argv[k] == if i <= k < j then old(argv[k + 1]) else old(argv[k])
    {
      argv[j] := argv[j + 1];
      j := j + 1;
    }
    argv[last] := arg;
  }

  lemma HeadAndTail(a: seq<Arg>, i: nat, n: nat, b: seq<Arg>, p: nat)
    requires i < n <= |a| && p < |b| && a[i..n] == b[p..]
    ensures a[i] == b[p] && a[i + 1..n] == b[p + 1..]
  {
    assert a[i..n][0] == a[i] && b[p..][0] == b[p];
    assert a[i..n][1..] == a[i + 1..n] && b[p..][1..] == b[p + 1..];
  }

  lemma MovedArranged(before: seq<Arg>, after: seq<Arg>, args: seq<Arg>, p: nat, i: nat, argc: nat)
    requires Arranged(before, args, p, i, argc) && i < argc && !Stays(args[p])
    requires after == before[..i] + before[i + 1..argc] + [before[i]] + before[argc..]
    ensures before[i] == args[p] && Arranged(after, args, p + 1, i, argc - 1)
  {
    NextArg(args, p);
    HeadAndTail(before, i, argc, args, p);
    assert after[..i] == before[..i];
    assert after[i..argc - 1] == before[i + 1..argc];
    assert after[argc - 1..] == [before[i]] + before[argc..];
  }

  lemma StayedArranged(now: seq<Arg>, args: seq<Arg>, p: nat, i: nat, argc: nat)
    requires Arranged(now, args, p, i, argc) && i < argc && Stays(args[p])
    ensures now[i] == args[p] && Arranged(now, args, p + 1, i + 1, argc)
  {
    NextArg(args, p);
    HeadAndTail(now, i, argc, args, p);
    assert now[..i + 1] == now[..i] + [now[i]];
  }

  method MoveBehind(argv: array<Arg>, i: nat, last: nat, ghost args: seq<Arg>, ghost p: nat)
    requires Arranged(argv[..], args, p, i, last + 1) && i <= last && !Stays(args[p])
    modifies argv
    ensures Arranged(argv[..], args, p + 1, i, last)
  {
    ghost var before := argv[..];
    MoveToEnd(argv, i, last);
    MovedArranged(before, argv[..], args, p, i, last + 1);
  }

  lemma FirstLeft(now: seq<Arg>, args: seq<Arg>, p: nat, i: nat, argc: nat)
    requires Arranged(now, args, p, i, argc) && i < argc
    ensures p < |args| && now[i] == args[p] && Wishes(args[..p + 1]) == Wishes(args[..p]) + WishOf(args[p])
  {
    assert now[i..argc][0] == args[p..][0];
    NextArg(args, p);
  }

  lemma AllArranged(now: seq<Arg>, args: seq<Arg>, p: nat, i: nat)
    requires Arranged(now, args, p, i, i)
    ensures now == Staying(args) + Moved(args) && i == |Staying(args)| && args[..p] == args
  {
    assert args[..p] == args && now == now[..i] + now[i..];
  }

  /** One round of the loop. */
  method Round(store: ConfigStore, argv: array<Arg>, i: nat, argc: nat, ghost args: seq<Arg>, ghost p: nat)
    returns (i1: nat, argc1: nat)
    requires Arranged(argv[..], args, p, i, argc) && i < argc
    modifies argv, store`settings, store`errors
    ensures p < |args| && Arranged(argv[..], args, p + 1, i1, argc1) && argc1 - i1 < argc - i
    ensures Wishes(args[..p + 1]) == Wishes(args[..p]) + WishOf(args[p])
    ensures store.Value() == AllHappened(store.world, store.aliases, old(store.Value()), WishOf(args[p]))
  {
    FirstLeft(argv[..], args, p, i, argc);
    i1, argc1 := i, argc;
    if Stays(argv[i]) {
      StayedArranged(argv[..], args, p, i, argc);
      HeedArg(store, argv[i]);
      i1 := i + 1;
    } else {
      argc1 := argc - 1;
      MoveBehind(argv, i, argc1, args, p);
    }
  }

  /** Does what the long options ask for, in order, and moves all other arguments behind them. */
  method ParseParams(store: ConfigStore, argv: array<Arg>) returns (argidx: nat)
    modifies argv, store`settings, store`errors
    ensures argv[..] == Staying(old(argv[..])) + Moved(old(argv[..])) && argidx == |Staying(old(argv[..]))|
    ensures store.Value() == AllHappened(store.world, store.aliases, old(store.Value()), Wishes(old(argv[..])))
  {
    ghost var args, s := argv[..], store.Value();
    var argc, i := argv.Length, 0;
    ghost var p := 0;
    while i < argc
      invariant 0 <= i <= argc && Arranged(argv[..], args, p, i, argc)
      invariant store.Value() == AllHappened(store.world, store.aliases, s, Wishes(args[..p]))
      decreases argc - i
    {
      i, argc := Round(store, argv, i, argc, args, p);
      HappenedTogether(store.world, store.aliases, s, Wishes(args[..p]), WishOf(args[p]));
      p := p + 1;
    }
    AllArranged(argv[..], args, p, i);
    argidx := argc;
  }

  method HeedArg(store: ConfigStore, arg: Arg)
    modifies store`settings, store`errors
    ensures store.Value() == AllHappened(store.world, store.aliases, old(store.Value()), WishOf(arg))
  {
    if arg.Some? && IsLong(arg.value) {
      HappenedNext(store.world, store.aliases, store.Value(), [], Wish(arg.value));
      Heed(store, arg.value);
    }
  }

  method Heed(store: ConfigStore, arg: string)
    requires IsLong(arg)
    modifies store`settings, store`errors
    ensures store.Value() == Happened(store.world, store.aliases, old(store.Value()), Wish(arg))
  {
    match Wish(arg)
    case Assign(request, mode) => var ok := store.AddSetting(request, mode);
    case Trouble(c) => store.errors := store.errors + [c];
  }

  // ---------- parameters outlast reloads ----------

  /** A parameter that was accepted sets its value, and takes the setting out of later reloads. */
  lemma ParameterSticks(world: World, aliases: map<string, string>, s: State, request: Request, events: seq<Event>)
    requires OnlyReload(events)
    requires Judge(world, request, PARAMETER, Lookup(s.settings, Target(aliases, request.name))).Accepted?
    ensures var key := Target(aliases, request.name);
      var t := Applied(world, aliases, s, request, PARAMETER);
      && key in t.settings && !t.settings[key].flags.reloadable
      && key in AllHappened(world, aliases, t, events).settings &&
        AllHappened(world, aliases, t, events).settings[key] == t.settings[key]
  {
    ReloadPreserves(world, aliases, Applied(world, aliases, s, request, PARAMETER), events);
  }
}
