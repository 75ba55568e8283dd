/**
 The second command-line engine.  A first pass drops ignored arguments and takes out the options that
 every program has; a second pass gives the remaining tokens to options, as names or values.
 */
module CommandLine {
  import opened Prelude
  import opened StringUtils

  /** Option strings, all with their dashes. */
  datatype Ignoring = Ignoring(withoutArg: seq<string>, withArg: seq<string>, on: seq<string>, off: seq<string>,
                               deprecated: map<string, string>)

  // ----- which tokens are passed on

  datatype Kind = Alone | WithArgument | On | Off | Other

  /** The lists are searched in this order. */
  function KindOf(c: Ignoring, t: string): Kind {
    if t in c.withoutArg then Alone
    else if t in c.withArg then WithArgument
    else if t in c.on then On
    else if t in c.off then Off
    else Other
  }

  /** Token i is the argument of an ignored option: the last token before it, but for empty ones. */
  predicate IsArgument(c: Ignoring, ts: seq<string>, i: nat)
    requires i <= |ts|
    decreases i
  {
    exists j | 0 <= j < i ::
      && ts[j] != "" && KindOf(c, ts[j]) == WithArgument && !IsArgument(c, ts, j)
      && forall k | j < k < i :: ts[k] == ""
  }

  /** Token i is looked at: it is not empty, and not an ignored argument. */
  predicate Considered(c: Ignoring, ts: seq<string>, i: nat)
    requires i < |ts|
  {
    ts[i] != "" && !IsArgument(c, ts, i)
  }

  predicate IsSwitch(c: Ignoring, ts: seq<string>, i: nat, kind: Kind)
    requires i < |ts|
  {
    Considered(c, ts, i) && KindOf(c, ts[i]) == kind
  }

  /** Place i is in a region that is ignored: the last switch before it turned ignoring on. */
  predicate InRegion(c: Ignoring, ts: seq<string>, i: nat)
    requires i <= |ts|
  {
    exists j | 0 <= j < i :: IsSwitch(c, ts, j, On) && forall k | j < k < i :: !IsSwitch(c, ts, k, Off)
  }

  /** Token i is not ignored in any way. */
  predicate Passed(c: Ignoring, ts: seq<string>, i: nat)
    requires i < |ts|
  {
    Considered(c, ts, i) && KindOf(c, ts[i]) == Other && !InRegion(c, ts, i)
  }

  predicate IsHelp(t: string) {
    t == "-h" || t == "--help"
  }

  predicate IsDebug(t: string) {
    StartsWith(t, "-d") || StartsWith(t, "--debug")
  }

  predicate IsVerbose(t: string) {
    t == "-v" || t == "--verbose"
  }

  /** The name of a file of options, or the announcement of one. */
  predicate IsFile(t: string) {
    t == "--file" || StartsWith(t, "-f")
  }

  /** What a token that is not ignored becomes. */
  function Rewritten(c: Ignoring, t: string): seq<string> {
    if IsHelp(t) || IsDebug(t) || IsVerbose(t) then []
    else if t in c.deprecated then [c.deprecated[t]]
    else [t]
  }

  /** The arguments that n tokens leave. */
  function Left(c: Ignoring, ts: seq<string>, n: nat): seq<string>
    requires n <= |ts|
  {
    if n == 0 then [] else Left(c, ts, n - 1) + if Passed(c, ts, n - 1) then Rewritten(c, ts[n - 1]) else []
  }

  function DebugLevel(t: string): int
    requires IsDebug(t)
  {
    if t == "-d" || t == "--debug" then 0 else AsLong(if t[1] == 'd' then t[2..] else t[7..])
  }

  /** The level of the last debug option, or `before` when there is none. */
  function LastDebug(c: Ignoring, ts: seq<string>, n: nat, before: int): int
    requires n <= |ts|
  {
    if n == 0 then before
    else if Passed(c, ts, n - 1) && !IsHelp(ts[n - 1]) && IsDebug(ts[n - 1]) then DebugLevel(ts[n - 1])
    else LastDebug(c, ts, n - 1, before)
  }

  /** A token that makes the program verbose; so does a debug level that is in range. */
  predicate MakesVerbose(t: string) {
    IsVerbose(t) || (IsDebug(t) && 0 <= DebugLevel(t) <= 7)
  }

  // ----- what the first pass remembers

  /** All that the first pass remembers. */
  datatype Memory = Memory(ignoreOnce: bool, ignoreOpts: bool, args: seq<string>, help: bool, verbose: bool, debug: int)

  /** What it should remember after n tokens. */
  ghost predicate Remembers(c: Ignoring, ts: seq<string>, n: nat, m: Memory)
    requires n <= |ts|
  {
    && m.ignoreOnce == IsArgument(c, ts, n) && m.ignoreOpts == InRegion(c, ts, n)
    && m.args == Left(c, ts, n) && m.debug == LastDebug(c, ts, n, -1)
    && (m.help <==> exists k :: 0 <= k < n && Passed(c, ts, k) && IsHelp(ts[k]))
    && (m.verbose <==> exists k :: 0 <= k < n && Passed(c, ts, k) && !IsHelp(ts[k]) && MakesVerbose(ts[k]))
  }

  /** What one token does. */
  function Remember(c: Ignoring, m: Memory, t: string): Memory {
    var considered := t != "" && !m.ignoreOnce;
    var passed := Takes(c, m, t);
    Memory(
      if t == "" then m.ignoreOnce else considered && KindOf(c, t) == WithArgument,
      if considered && KindOf(c, t) == On then true
      else if considered && KindOf(c, t) == Off then false
      else m.ignoreOpts,
      m.args + (if passed then Rewritten(c, t) else []),
      m.help || (passed && IsHelp(t)),
      m.verbose || (passed && !IsHelp(t) && MakesVerbose(t)),
      if passed && !IsHelp(t) && IsDebug(t) then DebugLevel(t) else m.debug)
  }

  lemma RememberStep(c: Ignoring, ts: seq<string>, i: nat, m: Memory)
    requires i < |ts| && Remembers(c, ts, i, m)
    ensures Remembers(c, ts, i + 1, Remember(c, m, ts[i]))
    ensures Passed(c, ts, i) <==> Takes(c, m, ts[i])
  {
    ArgumentStep(c, ts, i);
    RegionStep(c, ts, i);
    hide KindOf, IsArgument, InRegion, IsHelp, MakesVerbose, IsDebug, DebugLevel, Rewritten;
  }

  /** What a program remembers when it starts. */
  const NEW: Memory := Memory(false, false, [], false, false, -1)

  lemma RememberNothing(c: Ignoring, ts: seq<string>)
    ensures Remembers(c, ts, 0, NEW)
  {
  }

  /** What the tokens do, whatever is remembered before. */
  function RememberAll(c: Ignoring, m: Memory, ts: seq<string>): Memory {
    if ts == [] then m else Remember(c, RememberAll(c, m, ts[..|ts| - 1]), ts[|ts| - 1])
  }

  lemma RememberMore(c: Ignoring, m: Memory, ts: seq<string>, t: string)
    ensures RememberAll(c, m, ts + [t]) == Remember(c, RememberAll(c, m, ts), t)
  {
    assert (ts + [t])[..|ts|] == ts;
  }

  lemma {:induction false} RememberRest(c: Ignoring, ts: seq<string>, i: nat, n: nat, m: Memory)
    requires i <= n <= |ts| && Remembers(c, ts, i, m)
    ensures Remembers(c, ts, n, RememberAll(c, m, ts[i..n]))
  {
    hide *;
    if i == n {
      assert ts[i..n] == [];
      AllOfNothing(c, m);
    } else {
      RememberRest(c, ts, i, n - 1, m);
      RememberStep(c, ts, n - 1, RememberAll(c, m, ts[i..n - 1]));
      RememberMore(c, m, ts[i..n - 1], ts[n - 1]);
      assert ts[i..n] == ts[i..n - 1] + [ts[n - 1]];
    }
  }

  lemma AllOfNothing(c: Ignoring, m: Memory)
    ensures RememberAll(c, m, []) == m
  {
  }

  /** The arguments that are there before stay in front. */
  lemma {:induction false} ArgumentsBefore(c: Ignoring, m: Memory, ts: seq<string>)
    ensures var r := RememberAll(c, m.(args := []), ts);
            RememberAll(c, m, ts) == r.(args := m.args + r.args)
  {
    if ts == [] {
      assert m.args + [] == m.args;
    } else {
      var n := |ts| - 1;
      ArgumentsBefore(c, m, ts[..n]);
      hide KindOf, Rewritten, RememberAll, MakesVerbose, DebugLevel, IsHelp, IsDebug;
      var r := RememberAll(c, m.(args := []), ts[..n]);
      assert ts == ts[..n] + [ts[n]];
      RememberMore(c, m, ts[..n], ts[n]);
      RememberMore(c, m.(args := []), ts[..n], ts[n]);
      assert forall a :: (m.args + r.args) + a == m.args + (r.args + a);
    }
  }

  /**
   The flags outlive a command line: a second one is dealt with like the rest of one long command line
   that starts with the first.
   */
  lemma CommandLinesAreOne(c: Ignoring, ts: seq<string>, us: seq<string>)
    ensures var m := RememberAll(c, NEW, ts);
            var r := RememberAll(c, m.(args := []), us);
            && Remembers(c, ts, |ts|, m)
            && Remembers(c, ts + us, |ts| + |us|, r.(args := m.args + r.args))
  {
    hide *;
    var all, m := ts + us, RememberAll(c, NEW, ts);
    RememberNothing(c, ts);
    RememberNothing(c, all);
    assert ts[0..|ts|] == ts && all[0..|ts|] == ts && all[|ts|..|all|] == us;
    RememberRest(c, ts, 0, |ts|, NEW);
    RememberRest(c, all, 0, |ts|, NEW);
    RememberRest(c, all, |ts|, |all|, m);
    ArgumentsBefore(c, m, us);
  }

  /** A token is neither dropped nor ignored. */
  predicate Takes(c: Ignoring, m: Memory, t: string) {
    t != "" && !m.ignoreOnce && KindOf(c, t) == Other && !m.ignoreOpts
  }

  /** No token that is taken is about a file of options. */
  predicate NoFiles(c: Ignoring, m: Memory, ts: seq<string>) {
    forall i | 0 <= i < |ts| && Takes(c, RememberAll(c, m, ts[..i]), ts[i]) :: !IsFile(ts[i])
  }

  lemma ArgumentStep(c: Ignoring, ts: seq<string>, i: nat)
    requires i < |ts|
    ensures IsArgument(c, ts, i + 1)
       <==> if ts[i] == "" then IsArgument(c, ts, i) else KindOf(c, ts[i]) == WithArgument && !IsArgument(c, ts, i)
  {
    hide KindOf;
    if ts[i] == "" && IsArgument(c, ts, i) {
      var j :| 0 <= j < i && ts[j] != "" && KindOf(c, ts[j]) == WithArgument && !IsArgument(c, ts, j)
               && forall k | j < k < i :: ts[k] == "";
      assert forall k | j < k < i + 1 :: ts[k] == "";
    }
    if IsArgument(c, ts, i + 1) {
      var j :| 0 <= j < i + 1 && ts[j] != "" && KindOf(c, ts[j]) == WithArgument && !IsArgument(c, ts, j)
               && forall k | j < k < i + 1 :: ts[k] == "";
      assert ts[i] == "" || j == i;
    }
  }

  lemma RegionStep(c: Ignoring, ts: seq<string>, i: nat)
    requires i < |ts|
    ensures InRegion(c, ts, i + 1)
       <==> if IsSwitch(c, ts, i, On) then true else if IsSwitch(c, ts, i, Off) then false else InRegion(c, ts, i)
  {
    hide IsSwitch;
    if InRegion(c, ts, i) && !IsSwitch(c, ts, i, Off) {
      var j :| 0 <= j < i && IsSwitch(c, ts, j, On) && forall k | j < k < i :: !IsSwitch(c, ts, k, Off);
      assert forall k | j < k < i + 1 :: !IsSwitch(c, ts, k, Off);
    }
    if InRegion(c, ts, i + 1) {
      var j :| 0 <= j < i + 1 && IsSwitch(c, ts, j, On) && forall k | j < k < i + 1 :: !IsSwitch(c, ts, k, Off);
      assert j == i || (forall k | j < k < i :: !IsSwitch(c, ts, k, Off));
    }
  }

  lemma RemembersAt(c: Ignoring, ts: seq<string>, n: nat, m: Memory)
    requires n <= |ts| && Remembers(c, ts, n, m)
    ensures m.args == Left(c, ts, n) && m.debug == LastDebug(c, ts, n, -1)
    ensures m.help <==> exists i :: 0 <= i < n && Passed(c, ts, i) && IsHelp(ts[i])
    ensures m.verbose <==> exists i :: 0 <= i < n && Passed(c, ts, i) && !IsHelp(ts[i]) && MakesVerbose(ts[i])
  {
  }

  // ----- who gets a token

  datatype Option = Option(shortOpt: char, longOpt: string, takesValue: bool, repeat: bool, required: bool,
                           values: seq<string>)

  predicate Names(o: Option, arg: string) {
    arg == ['-', o.shortOpt] || arg == "--" + o.longOpt
  }

  /** The first option that the token names. */
  function FirstNamed(os: seq<Option>, arg: string): (j: nat)
    ensures j <= |os| && (j < |os| ==> Names(os[j], arg))
    ensures forall k | 0 <= k < j :: !Names(os[k], arg)
  {
    if os == [] || Names(os[0], arg) then 0 else 1 + FirstNamed(os[1..], arg)
  }

  /** A token is a flag, the name of an option, its value, a name without a value, or not recognized. */
  datatype Role = Flag(option: nat) | Name(option: nat) | Value(option: nat) | Lacking(option: nat) | Unrecognized

  function Roles(os: seq<Option>, args: seq<string>): (r: seq<Role>)
    ensures |r| == |args|
  {
    if args == [] then []
    else
      var j := FirstNamed(os, args[0]);
      if j == |os| then [Unrecognized] + Roles(os, args[1..])
      else if !os[j].takesValue then [Flag(j)] + Roles(os, args[1..])
      else if |args| == 1 || StartsWith(args[1], "--") then [Lacking(j)] + Roles(os, args[1..])
      else [Name(j), Value(j)] + Roles(os, args[2..])
  }

  /** What option j gets from the tokens. */
  function ValuesFor(rs: seq<Role>, args: seq<string>, j: nat): seq<string>
    requires |rs| == |args|
  {
    if rs == [] then []
    else
      (if rs[0] == Flag(j) then ["T"] else if rs[0] == Value(j) then [args[0]] else [])
      + ValuesFor(rs[1..], args[1..], j)
  }

  function Unrecognizeds(rs: seq<Role>, args: seq<string>): seq<string>
    requires |rs| == |args|
  {
    if rs == [] then []
    else (if rs[0] == Unrecognized then [args[0]] else []) + Unrecognizeds(rs[1..], args[1..])
  }

  /** Names that need a value and have none. */
  function Lackings(rs: seq<Role>, args: seq<string>): seq<string>
    requires |rs| == |args|
  {
    if rs == [] then []
    else (if rs[0].Lacking? then [args[0]] else []) + Lackings(rs[1..], args[1..])
  }

  // ----- giving tokens to options

  function Receive(o: Option, value: string): Option {
    o.(values := o.values + [value])
  }

  /** The options with what the tokens have for them, when `names` says which tokens they are. */
  function Given(names: seq<Option>, os: seq<Option>, args: seq<string>): (r: seq<Option>)
    ensures |r| == |os|
    ensures forall j | 0 <= j < |os| :: r[j] == os[j].(values := os[j].values + ValuesFor(Roles(names, args), args, j))
  {
    seq(|os|, j requires 0 <= j < |os| => os[j].(values := os[j].values + ValuesFor(Roles(names, args), args, j)))
  }

  predicate SameNames(os: seq<Option>, os': seq<Option>) {
    && |os| == |os'|
    && forall j | 0 <= j < |os| ::
         os[j].shortOpt == os'[j].shortOpt && os[j].longOpt == os'[j].longOpt && os[j].takesValue == os'[j].takesValue
  }

  lemma FirstIs(os: seq<Option>, os': seq<Option>, arg: string, j: nat)
    requires SameNames(os, os') && j == FirstNamed(os', arg)
    ensures j == FirstNamed(os, arg)
  {
    var k := FirstNamed(os, arg);
    assert forall i | 0 <= i < |os| :: Names(os[i], arg) == Names(os'[i], arg);
    hide Names, FirstNamed;
    if k < |os| {
      assert Names(os'[k], arg);
    }
    if j < |os| {
      assert Names(os[j], arg);
    }
  }

  lemma {:induction false} GiveNothing(names: seq<Option>, os: seq<Option>, arg: string, rest: seq<string>)
    requires var j := FirstNamed(names, arg);
             j == |names| || (names[j].takesValue && (rest == [] || StartsWith(rest[0], "--")))
    ensures var rs, args := Roles(names, [arg] + rest), [arg] + rest;
            && Given(names, os, args) == Given(names, os, rest)
            && (forall k | 0 <= k < |os| :: ValuesFor(rs, args, k) == ValuesFor(Roles(names, rest), rest, k))
            && (FirstNamed(names, arg) == |names| ==>
                  && Unrecognizeds(rs, args) == [arg] + Unrecognizeds(Roles(names, rest), rest)
                  && Lackings(rs, args) == Lackings(Roles(names, rest), rest))
            && (FirstNamed(names, arg) < |names| ==>
                  && Unrecognizeds(rs, args) == Unrecognizeds(Roles(names, rest), rest)
                  && Lackings(rs, args) == [arg] + Lackings(Roles(names, rest), rest))
  {
    var j, args, rs := FirstNamed(names, arg), [arg] + rest, Roles(names, rest);
    assert args[1..] == rest && args[0] == arg && (|args| > 1 ==> args[1] == rest[0]);
    var r := if j == |names| then Unrecognized else Lacking(j);
    assert Roles(names, args) == [r] + rs;
    assert ([r] + rs)[1..] == rs;
    hide Roles;
    assert forall k | 0 <= k < |os| :: ValuesFor([r] + rs, args, k) == ValuesFor(rs, rest, k);
  }

  lemma {:induction false} GivenMore(names: seq<Option>, os: seq<Option>, args: seq<string>, rest: seq<string>,
                                     j: nat, value: string)
    requires j < |os|
    requires forall k | 0 <= k < |os| ::
               ValuesFor(Roles(names, args), args, k)
               == (if k == j then [value] else []) + ValuesFor(Roles(names, rest), rest, k)
    ensures Given(names, os, args) == Given(names, os[j := Receive(os[j], value)], rest)
  {
    hide ValuesFor, Roles;
    var os' := os[j := Receive(os[j], value)];
    forall k | 0 <= k < |os| ensures Given(names, os, args)[k] == Given(names, os', rest)[k] {
      var more := ValuesFor(Roles(names, rest), rest, k);
      if k == j {
        Reassociate(os[j].values, [value], more);
      } else {
        assert [] + more == more;
      }
    }
  }

  lemma {:induction false} GiveFlag(names: seq<Option>, os: seq<Option>, arg: string, rest: seq<string>)
    requires SameNames(names, os)
    requires FirstNamed(names, arg) < |names| && !names[FirstNamed(names, arg)].takesValue
    ensures var j, rs, args := FirstNamed(names, arg), Roles(names, [arg] + rest), [arg] + rest;
            && Given(names, os, args) == Given(names, os[j := Receive(os[j], "T")], rest)
            && (forall k | 0 <= k < |os| ::
                  ValuesFor(rs, args, k) == (if k == j then ["T"] else []) + ValuesFor(Roles(names, rest), rest, k))
            && Unrecognizeds(rs, args) == Unrecognizeds(Roles(names, rest), rest)
            && Lackings(rs, args) == Lackings(Roles(names, rest), rest)
  {
    var j, args, rs := FirstNamed(names, arg), [arg] + rest, Roles(names, rest);
    assert args[1..] == rest && args[0] == arg;
    assert Roles(names, args) == [Flag(j)] + rs;
    assert ([Flag(j)] + rs)[1..] == rs;
    hide Roles;
    forall k | 0 <= k < |os|
      ensures ValuesFor([Flag(j)] + rs, args, k) == (if k == j then ["T"] else []) + ValuesFor(rs, rest, k)
    {
    }
    hide ValuesFor;
    GivenMore(names, os, args, rest, j, "T");
  }

  lemma {:induction false} GiveValue(names: seq<Option>, os: seq<Option>, arg: string, value: string, rest: seq<string>)
    requires SameNames(names, os)
    requires FirstNamed(names, arg) < |names| && names[FirstNamed(names, arg)].takesValue && !StartsWith(value, "--")
    ensures var j, rs, args := FirstNamed(names, arg), Roles(names, [arg, value] + rest), [arg, value] + rest;
            && Given(names, os, args) == Given(names, os[j := Receive(os[j], value)], rest)
            && (forall k | 0 <= k < |os| ::
                  ValuesFor(rs, args, k) == (if k == j then [value] else []) + ValuesFor(Roles(names, rest), rest, k))
            && Unrecognizeds(rs, args) == Unrecognizeds(Roles(names, rest), rest)
            && Lackings(rs, args) == Lackings(Roles(names, rest), rest)
  {
    var j, args, rs := FirstNamed(names, arg), [arg, value] + rest, Roles(names, rest);
    var rs' := [Name(j), Value(j)] + rs;
    assert args[1..] == [value] + rest && args[2..] == rest && args[0] == arg && args[1] == value;
    assert Roles(names, args) == rs';
    assert rs'[1..] == [Value(j)] + rs && ([Value(j)] + rs)[1..] == rs && ([value] + rest)[1..] == rest;
    hide Roles;
    forall k | 0 <= k < |os|
      ensures ValuesFor(rs', args, k) == (if k == j then [value] else []) + ValuesFor(rs, rest, k)
    {
      assert ValuesFor(rs', args, k) == ValuesFor([Value(j)] + rs, [value] + rest, k);
    }
    assert Unrecognizeds(rs', args) == Unrecognizeds([Value(j)] + rs, [value] + rest);
    assert Lackings(rs', args) == Lackings([Value(j)] + rs, [value] + rest);
    hide ValuesFor;
    GivenMore(names, os, args, rest, j, value);
  }

  function WithSpecial(o: Option, help: bool, verbose: bool, debug: int): Option {
    if help && o.longOpt == "help" then Receive(o, "T")
    else if verbose && o.longOpt == "verbose" then Receive(o, "T")
    else if debug > -1 && o.longOpt == "debug" then Receive(o, Decimal(debug))
    else o
  }

  /** Required options without a value. */
  function Missing(os: seq<Option>): seq<string> {
    if os == [] then []
    else
      var o := os[|os| - 1];
      Missing(os[..|os| - 1]) + if o.required && o.values == [] then [o.longOpt] else []
  }

  /** Options with more values than one that may not have them. */
  function Repeated(os: seq<Option>): seq<string> {
    if os == [] then []
    else
      var o := os[|os| - 1];
      Repeated(os[..|os| - 1]) + if !o.repeat && |o.values| > 1 then [o.longOpt] else []
  }

  lemma Replaced<T>(s: seq<T>, was: seq<T>, j: nat, x: T)
    requires j < |s| == |was| && s[j..] == was[j..]
    ensures s[j := x][..j + 1] == s[..j] + [x] && s[j := x][j + 1..] == was[j + 1..]
  {
    assert s[j..][1..] == s[j + 1..] && was[j..][1..] == was[j + 1..];
  }

  lemma NothingWrong()
    ensures Missing([]) == [] == Repeated([])
  {
  }

  lemma OneMore(os: seq<Option>, o: Option)
    ensures Missing(os + [o]) == Missing(os) + if o.required && o.values == [] then [o.longOpt] else []
    ensures Repeated(os + [o]) == Repeated(os) + if !o.repeat && |o.values| > 1 then [o.longOpt] else []
  {
    assert (os + [o])[..|os|] == os;
  }

  /** The state before token i: what has been given out, and what is still to come, make up the whole. */
  ghost predicate SharedOut(names: seq<Option>, args: seq<string>, i: nat, os: seq<Option>, lacking: seq<string>,
                            unrecog: seq<string>)
    requires i <= |args|
  {
    && SameNames(names, os)
    && Given(names, os, args[i..]) == Given(names, names, args)
    && lacking + Lackings(Roles(names, args[i..]), args[i..]) == Lackings(Roles(names, args), args)
    && unrecog + Unrecognizeds(Roles(names, args[i..]), args[i..]) == Unrecognizeds(Roles(names, args), args)
  }

  lemma {:induction false} NothingGiven(names: seq<Option>, args: seq<string>)
    ensures SharedOut(names, args, 0, names, [], [])
  {
    hide Roles, Lackings, Unrecognizeds, Given;
    assert args[0..] == args;
  }

  lemma {:induction false} AllGiven(names: seq<Option>, args: seq<string>, os: seq<Option>, lacking: seq<string>,
                                    unrecog: seq<string>)
    requires SharedOut(names, args, |args|, os, lacking, unrecog)
    ensures os == Given(names, names, args)
    ensures lacking == Lackings(Roles(names, args), args) && unrecog == Unrecognizeds(Roles(names, args), args)
  {
    hide Given;
    assert args[|args|..] == [];
    NothingToGive(names, os);
    assert lacking + [] == lacking && unrecog + [] == unrecog;
  }

  /** Each thing that can be done with a token leads on. */
  lemma {:induction false} NextToken(names: seq<Option>, args: seq<string>, i: nat, os: seq<Option>,
                                     lacking: seq<string>, unrecog: seq<string>)
    requires i < |args| && SharedOut(names, args, i, os, lacking, unrecog)
    ensures var j := FirstNamed(os, args[i]);
            if j == |os| then SharedOut(names, args, i + 1, os, lacking, unrecog + [args[i]])
            else if !os[j].takesValue then SharedOut(names, args, i + 1, os[j := Receive(os[j], "T")], lacking, unrecog)
            else if i == |args| - 1 || StartsWith(args[i + 1], "--")
            then SharedOut(names, args, i + 1, os, lacking + [args[i]], unrecog)
            else SharedOut(names, args, i + 2, os[j := Receive(os[j], args[i + 1])], lacking, unrecog)
  {
    hide Roles, Given, Lackings, Unrecognizeds, FirstNamed;
    var arg, j, rest := args[i], FirstNamed(os, args[i]), args[i + 1..];
    assert args[i..] == [arg] + rest;
    FirstIs(names, os, arg, j);
    if j == |os| || (os[j].takesValue && (i == |args| - 1 || StartsWith(args[i + 1], "--"))) {
      GiveNothing(names, os, arg, rest);
      Reassociate(lacking, [arg], Lackings(Roles(names, rest), rest));
      Reassociate(unrecog, [arg], Unrecognizeds(Roles(names, rest), rest));
    } else if !os[j].takesValue {
      GiveFlag(names, os, arg, rest);
    } else {
      assert args[i..] == [arg, args[i + 1]] + args[i + 2..];
      GiveValue(names, os, arg, args[i + 1], args[i + 2..]);
    }
  }

  lemma NothingToGive(names: seq<Option>, os: seq<Option>)
    ensures Given(names, os, []) == os && Lackings(Roles(names, []), []) == [] == Unrecognizeds(Roles(names, []), [])
  {
    forall k | 0 <= k < |os| ensures Given(names, os, [])[k] == os[k] {
      assert os[k].values + [] == os[k].values;
    }
  }

  // ----- the class

  class CommandLine {
    const c: Ignoring
    var foundCfgFile: bool
    var ignoreOpts: bool
    var ignoreOnce: bool
    var help: bool
    var verbose: bool
    var debug: int
    var options: seq<Option>

    constructor (c: Ignoring, options: seq<Option>)
      ensures this.c == c && this.options == options
      ensures !foundCfgFile && !ignoreOpts && !ignoreOnce && !help && !verbose && debug == -1
    {
      this.c := c;
      this.options := options;
      foundCfgFile, ignoreOpts, ignoreOnce, help, verbose, debug := false, false, false, false, false, -1;
    }

    function State(args: seq<string>): Memory
      reads this
    {
      Memory(ignoreOnce, ignoreOpts, args, help, verbose, debug)
    }

    method Listed(opts: seq<string>, sarg: string) returns (found: bool)
      ensures found == (sarg in opts)
    {
      for i := 0 to |opts|
        invariant sarg !in opts[..i]
      {
        if sarg == opts[i] {
          return true;
        }
      }
      found := false;
    }

    /** One token; what is left for the second pass is added to `args`. */
    method PreProcessArg(sarg: string, args: seq<string>) returns (r: seq<string>)
      requires !foundCfgFile
      requires Takes(c, State(args), sarg) ==> !IsFile(sarg)
      modifies this
      ensures options == old(options) && !foundCfgFile
      ensures State(r) == Remember(c, old(State(args)), sarg)
    {
      r := args;
      if sarg == "" {
        return;
      }
      if ignoreOnce {
        ignoreOnce := false;
        return;
      }
      var listed := Listed(c.withoutArg, sarg);
      if listed {
        return;
      }
      listed := Listed(c.withArg, sarg);
      if listed {
        ignoreOnce := true;
        return;
      }
      listed := Listed(c.on, sarg);
      if listed {
        ignoreOpts := true;
        return;
      }
      listed := Listed(c.off, sarg);
      if listed {
        ignoreOpts := false;
        return;
      }
      if ignoreOpts {
        return;
      }
      if sarg == "-h" || sarg == "--help" {
        help := true;
      } else if StartsWith(sarg, "-d") || StartsWith(sarg, "--debug") {
        if sarg == "-d" || sarg == "--debug" {
          debug := 0;
        } else {
          debug := AsLong(if sarg[1] == 'd' then sarg[2..] else sarg[7..]);
        }
        if debug >= 0 && debug <= 7 {
          verbose := true;
        }
      } else if sarg == "-v" || sarg == "--verbose" {
        verbose := true;
      } else if sarg in c.deprecated {
        r := args + [c.deprecated[sarg]];
      } else {
        r := args + [sarg];
      }
    }

    /** All tokens, from any state that calls before may have left. */
    method PreProcessArgs(ts: seq<string>) returns (args: seq<string>)
      requires !foundCfgFile && NoFiles(c, State([]), ts)
      modifies this
      ensures options == old(options) && !foundCfgFile
      ensures State(args) == RememberAll(c, old(State([])), ts)
      ensures old(State([])) == NEW ==>
                && args == Left(c, ts, |ts|)
                && (help <==> exists i :: 0 <= i < |ts| && Passed(c, ts, i) && IsHelp(ts[i]))
                && (verbose <==>
                      exists i :: 0 <= i < |ts| && Passed(c, ts, i) && !IsHelp(ts[i]) && MakesVerbose(ts[i]))
                && debug == LastDebug(c, ts, |ts|, -1)
    {
      args := [];
      ghost var m := State([]);
      assert ts[..0] == [];
      for i := 0 to |ts|
        invariant !foundCfgFile && options == old(options)
        invariant State(args) == RememberAll(c, m, ts[..i])
      {
        hide RememberAll, Remember, KindOf, IsFile;
        assert ts[..i + 1] == ts[..i] + [ts[i]];
        RememberMore(c, m, ts[..i], ts[i]);
        args := PreProcessArg(ts[i], args);
      }
      hide *;
      assert ts[..|ts|] == ts[0..|ts|] == ts;
      RememberNothing(c, ts);
      if m == NEW {
        RememberRest(c, ts, 0, |ts|, NEW);
        RemembersAt(c, ts, |ts|, State(args));
      }
    }

    /** Give every token to an option, as its name or its value, or find that it is not recognized. */
    method GiveTokens(args: seq<string>) returns (lacking: seq<string>, unrecog: seq<string>)
      modifies this`options
      ensures options == Given(old(options), old(options), args)
      ensures lacking == Lackings(Roles(old(options), args), args)
      ensures unrecog == Unrecognizeds(Roles(old(options), args), args)
    {
      hide *;
      lacking, unrecog := [], [];
      var i := 0;
      ghost var os := options;
      NothingGiven(os, args);
      while i < |args|
        invariant 0 <= i <= |args| && SharedOut(os, args, i, options, lacking, unrecog)
      {
        var arg := args[i];
        NextToken(os, args, i, options, lacking, unrecog);
        var j := Search(arg);
        if j == |options| {
          unrecog := unrecog + [arg];
        } else if !options[j].takesValue {
          options := options[j := Receive(options[j], "T")];
        } else if i == |args| - 1 || StartsWith(args[i + 1], "--") {
          lacking := lacking + [arg];
        } else {
          i := i + 1;
          options := options[j := Receive(options[j], args[i])];
        }
        i := i + 1;
      }
      AllGiven(os, args, options, lacking, unrecog);
    }

    /** The first option that the token names. */
    method Search(arg: string) returns (j: nat)
      ensures j == FirstNamed(options, arg)
    {
      j := 0;
      while j < |options|
        invariant 0 <= j <= |options| && forall k | 0 <= k < j :: !Names(options[k], arg)
      {
        if arg == ['-', options[j].shortOpt] || arg == "--" + options[j].longOpt {
          break;
        }
        j := j + 1;
      }
    }

    /** The value that the first pass has found for a special option. */
    method TakeSpecial(o: Option) returns (r: Option)
      ensures r == WithSpecial(o, help, verbose, debug)
    {
      r := o;
      if help && o.longOpt == "help" {
        r := Receive(o, "T");
      } else if verbose && o.longOpt == "verbose" {
        r := Receive(o, "T");
      } else if debug > -1 && o.longOpt == "debug" {
        r := Receive(o, Decimal(debug));
      }
    }

    /** The special options get what the first pass has found, and the numbers of values are checked. */
    method CheckOptions() returns (missing: seq<string>, repeated: seq<string>)
      modifies this`options
      ensures |options| == |old(options)|
      ensures forall j | 0 <= j < |options| :: options[j] == WithSpecial(old(options)[j], help, verbose, debug)
      ensures missing == Missing(options) && repeated == Repeated(options)
    {
      hide *;
      missing, repeated := [], [];
      ghost var os := options;
      NothingWrong();
      ghost var checked := [];
      for j := 0 to |options|
        invariant |checked| == j && |options| == |os| && options[..j] == checked && options[j..] == os[j..]
        invariant forall k | 0 <= k < j :: checked[k] == WithSpecial(os[k], help, verbose, debug)
        invariant missing == Missing(checked) && repeated == Repeated(checked)
      {
        assert options[j..][0] == os[j..][0];
        var o := TakeSpecial(options[j]);
        OneMore(checked, o);
        Replaced(options, os, j, o);
        options := options[j := o];
        checked := checked + [o];
        if o.required && |o.values| == 0 {
          missing := missing + [o.longOpt];
        }
        if !o.repeat && |o.values| > 1 {
          repeated := repeated + [o.longOpt];
        }
      }
      assert options[..|options|] == options;
    }

    /**
     The second pass.  The errors are the names without a value, the required options that are
     missing, and the other options that are repeated.
     */
    method Parse(args: seq<string>)
      returns (lacking: seq<string>, missing: seq<string>, repeated: seq<string>, unrecog: seq<string>)
      modifies this`options
      ensures var rs := Roles(old(options), args);
              && lacking == Lackings(rs, args) && unrecog == Unrecognizeds(rs, args)
              && missing == Missing(options) && repeated == Repeated(options)
              && |options| == |old(options)|
              && forall j | 0 <= j < |options| ::
                   var o := old(options)[j];
                   options[j] == WithSpecial(o.(values := o.values + ValuesFor(rs, args, j)), help, verbose, debug)
    {
      hide Roles, Lackings, Unrecognizeds, Missing, Repeated, ValuesFor, WithSpecial;
      lacking, unrecog := GiveTokens(args);
      missing, repeated := CheckOptions();
    }
  }
}
