/** What the two passes of the second engine make of whole command lines. */
module CommandLineMeaning {
  import opened StringUtils
  import opened CommandLine

  // ----- what the roles are

  /** The role of one token, from its neighbours alone. */
  predicate RoleAt(os: seq<Option>, args: seq<string>, rs: seq<Role>, i: nat)
    requires |rs| == |args| && i < |args|
  {
    if i > 0 && rs[i - 1].Name? then rs[i] == Value(rs[i - 1].option)
    else
      var j := FirstNamed(os, args[i]);
      rs[i] == if j == |os| then Unrecognized
               else if !os[j].takesValue then Flag(j)
               else if i + 1 == |args| || StartsWith(args[i + 1], "--") then Lacking(j)
               else Name(j)
  }

  /** After a token that is not a name, the roles are those of the rest alone. */
  lemma {:induction false} RoleLater(os: seq<Option>, args: seq<string>, rs: seq<Role>, k: nat, i: nat)
    requires |rs| == |args| && 0 < k <= |args| && i < |args| - k && !rs[k - 1].Name?
    ensures RoleAt(os, args, rs, k + i) <==> RoleAt(os, args[k..], rs[k..], i)
  {
    hide FirstNamed;
    assert args[k..][i] == args[k + i] && rs[k..][i] == rs[k + i];
    assert i > 0 ==> rs[k..][i - 1] == rs[k + i - 1];
    assert k + i + 1 < |args| ==> args[k..][i + 1] == args[k + i + 1];
  }

  lemma {:induction false} RolesStart(os: seq<Option>, args: seq<string>)
    requires args != []
    ensures var rs := Roles(os, args);
            var k := if rs[0].Name? then 2 else 1;
            && k <= |args| && !rs[k - 1].Name? && rs[k..] == Roles(os, args[k..])
            && RoleAt(os, args, rs, 0) && (k == 2 ==> RoleAt(os, args, rs, 1))
  {
    hide FirstNamed, StartsWith;
  }

  lemma {:induction false} RolesFollowRules(os: seq<Option>, args: seq<string>)
    ensures forall i | 0 <= i < |args| :: RoleAt(os, args, Roles(os, args), i)
    decreases |args|
  {
    hide *;
    if args != [] {
      var rs := Roles(os, args);
      var k := if rs[0].Name? then 2 else 1;
      RolesStart(os, args);
      RolesFollowRules(os, args[k..]);
      forall i | k <= i < |args| ensures RoleAt(os, args, rs, i) {
        assert RoleAt(os, args[k..], rs[k..], i - k);
        RoleLater(os, args, rs, k, i - k);
      }
    }
  }

  lemma {:induction false} RulesDetermine(os: seq<Option>, args: seq<string>, rs: seq<Role>, rs': seq<Role>, n: nat)
    requires |rs| == |rs'| == |args| && n <= |args|
    requires forall i | 0 <= i < |args| :: RoleAt(os, args, rs, i) && RoleAt(os, args, rs', i)
    ensures rs[..n] == rs'[..n]
  {
    if n > 0 {
      RulesDetermine(os, args, rs, rs', n - 1);
      assert RoleAt(os, args, rs, n - 1) && RoleAt(os, args, rs', n - 1);
      assert n > 1 ==> rs[..n - 1][n - 2] == rs'[..n - 1][n - 2];
      assert rs[..n] == rs[..n - 1] + [rs[n - 1]] && rs'[..n] == rs'[..n - 1] + [rs'[n - 1]];
    }
  }

  /** Each token has exactly one role, and there is only one way to give them out. */
  lemma {:induction false} RolesAreUnique(os: seq<Option>, args: seq<string>, rs: seq<Role>)
    ensures rs == Roles(os, args) <==> |rs| == |args| && forall i | 0 <= i < |args| :: RoleAt(os, args, rs, i)
  {
    hide RoleAt, Roles;
    RolesFollowRules(os, args);
    if |rs| == |args| && forall i | 0 <= i < |args| :: RoleAt(os, args, rs, i) {
      RulesDetermine(os, args, rs, Roles(os, args), |args|);
      assert rs[..|args|] == rs && Roles(os, args)[..|args|] == Roles(os, args);
    }
  }

  // ----- tokens and what they are meant for

  /** What a user wants to say, with the letter or the long name of an option; a name may lack its value. */
  datatype Item =
    | Set(option: nat, short: bool)
    | Assign(option: nat, short: bool, value: string)
    | Lack(option: nat, short: bool)
    | Loose(text: string)

  predicate InRange(os: seq<Option>, i: Item) {
    !i.Loose? ==> i.option < |os|
  }

  function NameOf(os: seq<Option>, j: nat, short: bool): string
    requires j < |os|
  {
    if short then ['-', os[j].shortOpt] else "--" + os[j].longOpt
  }

  function TokensOf(os: seq<Option>, i: Item): seq<string>
    requires InRange(os, i)
  {
    match i
    case Set(j, short) => [NameOf(os, j, short)]
    case Assign(j, short, v) => [NameOf(os, j, short), v]
    case Lack(j, short) => [NameOf(os, j, short)]
    case Loose(t) => [t]
  }

  function Tokens(os: seq<Option>, items: seq<Item>): seq<string>
    requires forall i <- items :: InRange(os, i)
  {
    if items == [] then [] else TokensOf(os, items[0]) + Tokens(os, items[1..])
  }

  predicate LooksLong(t: string) {
    |t| >= 2 && t[0] == '-' && t[1] == '-'
  }

  /** No earlier option has this name. */
  predicate IsFirst(os: seq<Option>, j: nat, name: string)
    requires j <= |os|
  {
    forall k | 0 <= k < j :: name != ['-', os[k].shortOpt] && name != "--" + os[k].longOpt
  }

  /** Names are those of options that take what is said; values, and what follows a missing one, are told apart. */
  predicate Sayable(os: seq<Option>, i: Item, rest: seq<string>)
    requires InRange(os, i)
  {
    match i
    case Set(j, short) => IsFirst(os, j, NameOf(os, j, short)) && !os[j].takesValue
    case Assign(j, short, v) => IsFirst(os, j, NameOf(os, j, short)) && os[j].takesValue && !LooksLong(v)
    case Lack(j, short) =>
      IsFirst(os, j, NameOf(os, j, short)) && os[j].takesValue && (rest != [] ==> LooksLong(rest[0]))
    case Loose(t) => IsFirst(os, |os|, t)
  }

  predicate AllSayable(os: seq<Option>, items: seq<Item>)
    requires forall i <- items :: InRange(os, i)
  {
    items != [] ==> Sayable(os, items[0], Tokens(os, items[1..])) && AllSayable(os, items[1..])
  }

  function Assigned(items: seq<Item>, j: nat): seq<string> {
    if items == [] then []
    else (match items[0]
          case Set(k, _) => if k == j then ["T"] else []
          case Assign(k, _, v) => if k == j then [v] else []
          case _ => []) + Assigned(items[1..], j)
  }

  function LooseTexts(items: seq<Item>): seq<string> {
    if items == [] then [] else (if items[0].Loose? then [items[0].text] else []) + LooseTexts(items[1..])
  }

  function LackingNames(os: seq<Option>, items: seq<Item>): seq<string>
    requires forall i <- items :: InRange(os, i)
  {
    if items == [] then []
    else
      assert InRange(os, items[0]);
      (if items[0].Lack? then [NameOf(os, items[0].option, items[0].short)] else []) + LackingNames(os, items[1..])
  }

  lemma FirstNamedIs(os: seq<Option>, j: nat, name: string)
    requires j <= |os| && IsFirst(os, j, name)
    requires j < |os| ==> name == ['-', os[j].shortOpt] || name == "--" + os[j].longOpt
    ensures FirstNamed(os, name) == j
  {
    var k := FirstNamed(os, name);
    assert j < |os| ==> Names(os[j], name);
    assert k < |os| ==> Names(os[k], name);
    hide FirstNamed;
  }

  lemma LooksLongIs(t: string)
    ensures StartsWith(t, "--") <==> LooksLong(t)
  {
    assert |t| >= 2 ==> (t[..2] == "--" <==> t[0] == '-' && t[1] == '-');
  }

  /** The parser gets out of the tokens what was put into them. */
  lemma {:induction false} TokensAreUnderstood(os: seq<Option>, items: seq<Item>)
    requires (forall i <- items :: InRange(os, i)) && AllSayable(os, items)
    ensures var args := Tokens(os, items);
            var rs := Roles(os, args);
            && (forall j | 0 <= j < |os| :: ValuesFor(rs, args, j) == Assigned(items, j))
            && Unrecognizeds(rs, args) == LooseTexts(items) && Lackings(rs, args) == LackingNames(os, items)
  {
    hide Roles, ValuesFor, Unrecognizeds, Lackings, Given, FirstNamed, StartsWith, IsFirst, LooksLong;
    if items == [] {
      NothingToGive(os, os);
      forall j | 0 <= j < |os| ensures ValuesFor(Roles(os, []), [], j) == [] {
        NoValues(os, j);
      }
    } else {
      var rest := Tokens(os, items[1..]);
      TokensAreUnderstood(os, items[1..]);
      assert InRange(os, items[0]);
      match items[0]
      case Set(j, short) =>
        FirstNamedIs(os, j, NameOf(os, j, short));
        GiveFlag(os, os, NameOf(os, j, short), rest);
      case Assign(j, short, v) =>
        FirstNamedIs(os, j, NameOf(os, j, short));
        LooksLongIs(v);
        GiveValue(os, os, NameOf(os, j, short), v, rest);
      case Lack(j, short) =>
        FirstNamedIs(os, j, NameOf(os, j, short));
        if rest != [] {
          LooksLongIs(rest[0]);
        }
        GiveNothing(os, os, NameOf(os, j, short), rest);
      case Loose(t) =>
        FirstNamedIs(os, |os|, t);
        GiveNothing(os, os, t, rest);
    }
  }

  // ----- where a region ends

  /** An off switch ends a region unless it is the argument of an ignored option. */
  lemma OffEndsRegion(c: Ignoring, ts: seq<string>, i: nat)
    requires i < |ts| && ts[i] != "" && KindOf(c, ts[i]) == Off
    ensures InRegion(c, ts, i + 1) <==> InRegion(c, ts, i) && IsArgument(c, ts, i)
  {
    RegionStep(c, ts, i);
    hide IsArgument, InRegion;
  }

  lemma NothingBefore(c: Ignoring, ts: seq<string>)
    ensures !IsArgument(c, ts, 0) && !InRegion(c, ts, 0)
  {
  }

  /** For example, this region goes on to the end, and `x` is lost. */
  lemma RegionNotEnded()
    ensures var c := Ignoring([], ["--skip"], ["--on"], ["--off"], map[]);
            var ts := ["--on", "--skip", "--off", "x"];
            KindOf(c, ts[2]) == Off && InRegion(c, ts, 3) && Left(c, ts, 4) == []
  {
    var c := Ignoring([], ["--skip"], ["--on"], ["--off"], map[]);
    var ts := ["--on", "--skip", "--off", "x"];
    assert KindOf(c, ts[0]) == On && KindOf(c, ts[1]) == WithArgument;
    assert KindOf(c, ts[2]) == Off && KindOf(c, ts[3]) == Other;
    hide KindOf, IsArgument, InRegion;
    NothingBefore(c, ts);
    ArgumentStep(c, ts, 0);
    ArgumentStep(c, ts, 1);
    ArgumentStep(c, ts, 2);
    RegionStep(c, ts, 0);
    RegionStep(c, ts, 1);
    OffEndsRegion(c, ts, 2);
    assert !Passed(c, ts, 0) && !Passed(c, ts, 1) && !Passed(c, ts, 2) && !Passed(c, ts, 3);
  }

  // ----- which names reach their option

  /** Tokens that every program understands for itself. */
  predicate Reserved(t: string) {
    IsHelp(t) || IsDebug(t) || IsVerbose(t)
  }

  /** What becomes of a token that is neither ignored nor reserved. */
  function Substituted(c: Ignoring, t: string): string {
    if t in c.deprecated then c.deprecated[t] else t
  }

  /** Option j by this name, with a value if it takes one. */
  function Call(o: Option, t: string, v: string): seq<string> {
    if o.takesValue then [t, v] else [t]
  }

  /** After both passes over the call, the option has got what was meant for it. */
  predicate Receives(c: Ignoring, os: seq<Option>, j: nat, t: string, v: string)
    requires j < |os|
  {
    var ts := Call(os[j], t, v);
    var args := Left(c, ts, |ts|);
    && !IsFile(t)
    && ValuesFor(Roles(os, args), args, j) == [if os[j].takesValue then v else "T"]
  }

  /** A value that no pass takes for anything else. */
  predicate PlainValue(c: Ignoring, os: seq<Option>, v: string) {
    && v != "" && KindOf(c, v) == Other && !IsFile(v) && !StartsWith(v, "--")
    && Rewritten(c, v) == [v] && FirstNamed(os, v) == |os|
  }

  /** What the first pass makes of a lone token. */
  lemma LeftOfOne(c: Ignoring, t: string)
    requires t != ""
    ensures Left(c, [t], 1) == if KindOf(c, t) == Other then Rewritten(c, t) else []
  {
    var ts := [t];
    assert !IsArgument(c, ts, 0) && !InRegion(c, ts, 0);
    hide IsArgument, InRegion, KindOf, Rewritten;
    assert Passed(c, ts, 0) <==> KindOf(c, t) == Other;
    assert Left(c, ts, 0) == [];
  }

  /** And of a token with a plain value after it. */
  lemma LeftOfTwo(c: Ignoring, os: seq<Option>, t: string, v: string)
    requires t != "" && PlainValue(c, os, v)
    ensures Left(c, [t, v], 2)
         == match KindOf(c, t)
            case Other => Rewritten(c, t) + [v]
            case WithArgument => []
            case On => []
            case _ => [v]
  {
    var ts := [t, v];
    assert !IsArgument(c, ts, 0) && !InRegion(c, ts, 0);
    ArgumentStep(c, ts, 0);
    RegionStep(c, ts, 0);
    hide IsArgument, InRegion, KindOf, Rewritten;
    assert Passed(c, ts, 0) <==> KindOf(c, t) == Other;
    assert Passed(c, ts, 1) <==> KindOf(c, t) != WithArgument && KindOf(c, t) != On;
    assert Left(c, ts, 0) == [];
  }

  /** What option j gets from a token alone or with a plain value after it. */
  lemma {:induction false} GivenByCall(c: Ignoring, os: seq<Option>, j: nat, u: string, v: string)
    requires j < |os| && PlainValue(c, os, v)
    ensures ValuesFor(Roles(os, [u]), [u], j) == if FirstNamed(os, u) == j && !os[j].takesValue then ["T"] else []
    ensures ValuesFor(Roles(os, [v]), [v], j) == []
    ensures os[j].takesValue ==> ValuesFor(Roles(os, [u, v]), [u, v], j) == if FirstNamed(os, u) == j then [v] else []
  {
    hide Roles, ValuesFor, Rewritten, KindOf, IsFile;
    NothingToGive(os, os);
    NoValues(os, j);
    var k := FirstNamed(os, u);
    assert [u] + [] == [u] && [v] + [] == [v] && [u, v] == [u] + [v] && [u, v] + [] == [u, v];
    GiveNothing(os, os, v, []);
    if k == |os| || os[k].takesValue {
      GiveNothing(os, os, u, []);
    } else {
      GiveFlag(os, os, u, []);
    }
    if k == |os| {
      GiveNothing(os, os, u, [v]);
    } else if !os[k].takesValue {
      GiveFlag(os, os, u, [v]);
    } else {
      GiveValue(os, os, u, v, []);
    }
  }

  lemma NoValues(os: seq<Option>, j: nat)
    ensures ValuesFor(Roles(os, []), [], j) == []
  {
  }

  /**
   A name reaches its option through both passes exactly if it is not ignored, not reserved, not that
   of a file, and what is put in its place names this option before all others.
   */
  lemma CallReachesOption(c: Ignoring, os: seq<Option>, j: nat, t: string, v: string)
    requires j < |os| && t != "" && PlainValue(c, os, v)
    ensures Receives(c, os, j, t, v)
       <==> KindOf(c, t) == Other && !Reserved(t) && !IsFile(t) && FirstNamed(os, Substituted(c, t)) == j
  {
    hide *;
    var u := Substituted(c, t);
    ReceivesIs(c, os, j, t, v);
    LeftOfOne(c, t);
    LeftOfTwo(c, os, t, v);
    GivenByCall(c, os, j, u, v);
    NoValues(os, j);
    RewrittenIs(c, t);
    assert [u] + [v] == [u, v] && [] + [v] == [v];
  }

  lemma RewrittenIs(c: Ignoring, t: string)
    ensures Rewritten(c, t) == if Reserved(t) then [] else [Substituted(c, t)]
  {
  }

  lemma ReceivesIs(c: Ignoring, os: seq<Option>, j: nat, t: string, v: string)
    requires j < |os|
    ensures os[j].takesValue ==>
              var args := Left(c, [t, v], 2);
              Receives(c, os, j, t, v) <==> !IsFile(t) && ValuesFor(Roles(os, args), args, j) == [v]
    ensures !os[j].takesValue ==>
              var args := Left(c, [t], 1);
              Receives(c, os, j, t, v) <==> !IsFile(t) && ValuesFor(Roles(os, args), args, j) == ["T"]
  {
    hide Left, Roles, ValuesFor, IsFile;
  }

  function ShortName(o: Option): string {
    ['-', o.shortOpt]
  }

  function LongName(o: Option): string {
    "--" + o.longOpt
  }

  /** The name is not ignored, and what is put in its place names option j before all others. */
  predicate LeadsTo(c: Ignoring, os: seq<Option>, t: string, j: nat) {
    KindOf(c, t) == Other && FirstNamed(os, Substituted(c, t)) == j
  }

  /** A letter other than h, d, v and f reaches its option. */
  lemma LetterReachesOption(c: Ignoring, os: seq<Option>, j: nat, v: string)
    requires j < |os| && PlainValue(c, os, v)
    ensures Receives(c, os, j, ShortName(os[j]), v)
       <==> os[j].shortOpt !in "hdvf" && LeadsTo(c, os, ShortName(os[j]), j)
  {
    var t := ShortName(os[j]);
    CallReachesOption(c, os, j, t, v);
    hide Receives, KindOf, FirstNamed, Substituted;
    assert t[..2] == t;
  }

  lemma SameStart(l: string, m: string)
    ensures "--" + l == "--" + m <==> l == m
    ensures StartsWith("--" + l, "--" + m) <==> StartsWith(l, m)
  {
    var s, t := "--" + l, "--" + m;
    assert s[2..] == l && t[2..] == m;
    if |m| <= |l| {
      assert s[..|t|] == "--" + l[..|m|];
      assert s[..|t|][2..] == l[..|m|];
    }
  }

  lemma ReservedLongNames(l: string)
    ensures Reserved("--" + l) || IsFile("--" + l)
       <==> l == "help" || l == "verbose" || l == "file" || StartsWith(l, "debug")
  {
    SameStart(l, "help");
    SameStart(l, "verbose");
    SameStart(l, "file");
    SameStart(l, "debug");
    var t := "--" + l;
    assert "--" + "help" == "--help" && "--" + "verbose" == "--verbose";
    assert "--" + "file" == "--file" && "--" + "debug" == "--debug";
    assert t[..2][1] == '-' && "-d"[1] == 'd' && "-f"[1] == 'f' && t[0] == '-' && t[1] == '-';
    assert "-h"[1] == 'h' && "-v"[1] == 'v';
  }

  /** So does a long name other than help, verbose and file that does not start with debug. */
  lemma LongNameReachesOption(c: Ignoring, os: seq<Option>, j: nat, v: string)
    requires j < |os| && PlainValue(c, os, v)
    ensures Receives(c, os, j, LongName(os[j]), v)
       <==> && os[j].longOpt !in ["help", "verbose", "file"] && !StartsWith(os[j].longOpt, "debug")
            && LeadsTo(c, os, LongName(os[j]), j)
  {
    CallReachesOption(c, os, j, LongName(os[j]), v);
    ReservedLongNames(os[j].longOpt);
    hide Receives, KindOf, FirstNamed, Substituted, Reserved, IsFile, StartsWith;
  }

  /** For example, an option with the letter d is not reached by `-d`, nor is anything by `-data`. */
  lemma LetterDIsLost()
    ensures var c := Ignoring([], [], [], [], map[]);
            var os := [Option('d', "data", false, false, false, [])];
            && !Receives(c, os, 0, "-d", "x") && Receives(c, os, 0, "--data", "x")
            && Left(c, ["-data"], 1) == []
  {
    var c := Ignoring([], [], [], [], map[]);
    var os := [Option('d', "data", false, false, false, [])];
    assert PlainValue(c, os, "x");
    assert ShortName(os[0]) == "-d" && LongName(os[0]) == "--data";
    assert LeadsTo(c, os, "--data", 0) && !StartsWith("data", "debug");
    assert "-data"[..2] == "-d" && Rewritten(c, "-data") == [] && KindOf(c, "-data") == Other;
    hide Receives, PlainValue, LeadsTo, Left, Rewritten, KindOf, StartsWith, FirstNamed;
    LetterReachesOption(c, os, 0, "x");
    LongNameReachesOption(c, os, 0, "x");
    LeftOfOne(c, "-data");
  }

  // ----- whole command lines

  /** The pieces of a command line as the first pass sees it. */
  datatype Piece =
    | Say(t: string)
    | Rename(former: string)
    | Help(t: string)
    | Verbose(t: string)
    | Debug(long: bool, level: Level)
    | Nothing
    | Skip(t: string)
    | SkipTwo(t: string, arg: string)
    | Region(on: string, inside: seq<string>, off: string)

  /** A debug level may be given in digits. */
  datatype Level = NoLevel | Digits(digits: string)

  function DebugToken(long: bool, level: Level): string {
    (if long then "--debug" else "-d") + if level.NoLevel? then "" else level.digits
  }

  function LevelOf(level: Level): int
    requires level.Digits? ==> AllDigits(level.digits)
  {
    if level.NoLevel? then 0 else StringUtils.Value(level.digits)
  }

  predicate Listed(c: Ignoring, t: string) {
    t in c.withoutArg || t in c.withArg || t in c.on || t in c.off
  }

  /** Begins with `-d` or `--debug`, or `-f`, or is another token that every program has. */
  predicate Special(t: string) {
    || t in ["-h", "--help", "-v", "--verbose", "--file"]
    || (|t| >= 2 && t[0] == '-' && (t[1] == 'd' || t[1] == 'f')) || "--debug" <= t
  }

  predicate PieceOk(c: Ignoring, p: Piece) {
    match p
    case Say(t) => t != "" && !Listed(c, t) && !Special(t) && t !in c.deprecated
    case Rename(former) => former != "" && !Listed(c, former) && !Special(former) && former in c.deprecated
    case Help(t) => t in ["-h", "--help"] && !Listed(c, t)
    case Verbose(t) => t in ["-v", "--verbose"] && !Listed(c, t)
    case Debug(long, level) =>
      (level.Digits? ==> level.digits != "" && AllDigits(level.digits)) && !Listed(c, DebugToken(long, level))
    case Nothing => true
    case Skip(t) => t != "" && t in c.withoutArg
    case SkipTwo(t, arg) => t != "" && t in c.withArg && t !in c.withoutArg && arg != ""
    case Region(on, inside, off) =>
      && on != "" && on in c.on && on !in c.withoutArg && on !in c.withArg
      && (forall t <- inside :: t !in c.withArg && t !in c.off)
      && off != "" && off in c.off && off !in c.withoutArg && off !in c.withArg && off !in c.on
  }

  function TokensOfPiece(p: Piece): seq<string> {
    match p
    case Say(t) => [t]
    case Rename(former) => [former]
    case Help(t) => [t]
    case Verbose(t) => [t]
    case Debug(long, level) => [DebugToken(long, level)]
    case Nothing => [""]
    case Skip(t) => [t]
    case SkipTwo(t, arg) => [t, arg]
    case Region(on, inside, off) => [on] + inside + [off]
  }

  /** What a piece does: it adds an argument, or asks for help or verbosity, or sets the debug level. */
  function Effect(c: Ignoring, p: Piece, m: Memory): Memory
    requires PieceOk(c, p)
  {
    match p
    case Say(t) => m.(args := m.args + [t])
    case Rename(former) => m.(args := m.args + [c.deprecated[former]])
    case Help(_) => m.(help := true)
    case Verbose(_) => m.(verbose := true)
    case Debug(_, level) => m.(debug := LevelOf(level), verbose := m.verbose || LevelOf(level) <= 7)
    case _ => m
  }

  lemma {:induction false} RememberAppend(c: Ignoring, m: Memory, ts: seq<string>, us: seq<string>)
    ensures RememberAll(c, m, ts + us) == RememberAll(c, RememberAll(c, m, ts), us)
  {
    hide *;
    if us == [] {
      assert ts + us == ts;
      AllOfNothing(c, RememberAll(c, m, ts));
    } else {
      var n := |us| - 1;
      RememberAppend(c, m, ts, us[..n]);
      assert ts + us == (ts + us[..n]) + [us[n]] && us == us[..n] + [us[n]];
      RememberMore(c, m, ts + us[..n], us[n]);
      RememberMore(c, RememberAll(c, m, ts), us[..n], us[n]);
    }
  }

  lemma RememberOne(c: Ignoring, m: Memory, t: string)
    ensures RememberAll(c, m, [t]) == Remember(c, m, t)
  {
    RememberMore(c, m, [], t);
    AllOfNothing(c, m);
    assert [] + [t] == [t];
  }

  lemma SpecialIs(t: string)
    ensures IsHelp(t) || IsDebug(t) || IsVerbose(t) || IsFile(t) <==> Special(t)
  {
    assert |t| >= 2 ==> t[..2] == [t[0], t[1]];
    assert "-h"[0] == '-';
  }

  /** A token that is neither ignored nor special. */
  lemma RememberSaid(c: Ignoring, m: Memory, t: string)
    requires !m.ignoreOnce && !m.ignoreOpts && t != "" && !Listed(c, t) && !Special(t)
    ensures Remember(c, m, t) == m.(args := m.args + [if t in c.deprecated then c.deprecated[t] else t])
  {
    SpecialIs(t);
    hide IsHelp, IsDebug, IsVerbose, IsFile, Special, DebugLevel;
  }

  lemma HelpIs(t: string)
    requires t in ["-h", "--help"]
    ensures IsHelp(t) && t != ""
  {
  }

  lemma VerboseIs(t: string)
    requires t in ["-v", "--verbose"]
    ensures IsVerbose(t) && !IsHelp(t) && !IsDebug(t) && t != ""
  {
    assert "-v"[..2] == "-v" && "--verbose"[..2] == "--" && "--verbose"[..7] == "--verbo";
  }

  lemma RememberHelp(c: Ignoring, m: Memory, t: string)
    requires !m.ignoreOnce && !m.ignoreOpts && !Listed(c, t) && t in ["-h", "--help"]
    ensures Remember(c, m, t) == m.(help := true)
  {
    HelpIs(t);
    hide IsHelp, IsDebug, IsVerbose, DebugLevel, MakesVerbose;
    assert m.args + [] == m.args;
  }

  lemma RememberVerbose(c: Ignoring, m: Memory, t: string)
    requires !m.ignoreOnce && !m.ignoreOpts && !Listed(c, t) && t in ["-v", "--verbose"]
    ensures Remember(c, m, t) == m.(verbose := true)
  {
    VerboseIs(t);
    hide IsHelp, IsDebug, IsVerbose, DebugLevel;
    assert m.args + [] == m.args;
  }

  lemma DigitsAreLevel(s: string)
    requires AllDigits(s) && s != ""
    ensures AsLong(s) == StringUtils.Value(s)
  {
    DigitCountIs(s, "");
    assert s + "" == s && s[..|s|] == s && IsDigit(s[0]);
    hide StringUtils.Value;
  }

  lemma DebugIs(long: bool, level: Level)
    requires level.Digits? ==> level.digits != "" && AllDigits(level.digits)
    ensures var t := DebugToken(long, level);
            IsDebug(t) && !IsHelp(t) && !IsVerbose(t) && t != "" && DebugLevel(t) == LevelOf(level)
  {
    var t, name := DebugToken(long, level), if long then "--debug" else "-d";
    var digits := if level.NoLevel? then "" else level.digits;
    assert t == name + digits && t[..|name|] == name && t[|name|..] == digits;
    assert t[1] == if long then '-' else 'd';
    if digits == "" {
      assert t == name;
    } else {
      DigitsAreLevel(digits);
      assert |t| > |name|;
    }
    assert long ==> t[2] == 'd';
    assert "--help"[2] == 'h' && "--verbose"[2] == 'v' && "-h"[1] == 'h' && "-v"[1] == 'v';
    hide AsLong, StringUtils.Value;
  }

  lemma RememberDebug(c: Ignoring, m: Memory, long: bool, level: Level)
    requires !m.ignoreOnce && !m.ignoreOpts && PieceOk(c, Debug(long, level))
    ensures Remember(c, m, DebugToken(long, level)) == Effect(c, Debug(long, level), m)
  {
    DebugIs(long, level);
    hide IsHelp, IsDebug, IsVerbose, DebugLevel, DebugToken, StringUtils.Value;
    assert m.args + [] == m.args;
  }

  lemma RememberIgnored(c: Ignoring, m: Memory, t: string)
    requires !m.ignoreOnce
    ensures t == "" || (t in c.withoutArg) ==> Remember(c, m, t) == m
    ensures t != "" && t in c.withArg && t !in c.withoutArg ==> Remember(c, m, t) == m.(ignoreOnce := true)
    ensures t != "" && t in c.on && t !in c.withoutArg && t !in c.withArg ==>
              Remember(c, m, t) == m.(ignoreOpts := true)
    ensures t != "" && t in c.off && t !in c.withoutArg && t !in c.withArg && t !in c.on ==>
              Remember(c, m, t) == m.(ignoreOpts := false)
    ensures m.ignoreOpts && t !in c.withArg && t !in c.off ==> Remember(c, m, t) == m
    ensures forall u :: u != "" ==> Remember(c, m.(ignoreOnce := true), u) == m
  {
    hide Rewritten, MakesVerbose, IsHelp, IsDebug, DebugLevel;
    assert m.args + [] == m.args;
  }

  lemma {:induction false} RememberInside(c: Ignoring, m: Memory, ts: seq<string>)
    requires !m.ignoreOnce && m.ignoreOpts && forall t <- ts :: t !in c.withArg && t !in c.off
    ensures RememberAll(c, m, ts) == m
  {
    hide Remember, RememberAll;
    if ts == [] {
      AllOfNothing(c, m);
    } else {
      var n := |ts| - 1;
      assert ts == ts[..n] + [ts[n]];
      RememberInside(c, m, ts[..n]);
      RememberMore(c, m, ts[..n], ts[n]);
      RememberIgnored(c, m, ts[n]);
    }
  }

  lemma RememberRegion(c: Ignoring, m: Memory, on: string, inside: seq<string>, off: string)
    requires !m.ignoreOnce && !m.ignoreOpts && PieceOk(c, Region(on, inside, off))
    ensures RememberAll(c, m, [on] + inside + [off]) == m
  {
    hide Remember, RememberAll;
    var within := m.(ignoreOpts := true);
    RememberAppend(c, m, [on] + inside, [off]);
    RememberAppend(c, m, [on], inside);
    RememberOne(c, m, on);
    RememberOne(c, within, off);
    RememberIgnored(c, m, on);
    RememberIgnored(c, within, off);
    RememberInside(c, within, inside);
  }

  /** One piece. */
  lemma PieceHasEffect(c: Ignoring, m: Memory, p: Piece)
    requires !m.ignoreOnce && !m.ignoreOpts && PieceOk(c, p)
    ensures RememberAll(c, m, TokensOfPiece(p)) == Effect(c, p, m)
  {
    hide Remember, RememberAll, Listed, Special;
    match p
    case Say(t) =>
      RememberOne(c, m, t);
      RememberSaid(c, m, t);
    case Rename(former) =>
      RememberOne(c, m, former);
      RememberSaid(c, m, former);
    case Help(t) =>
      RememberOne(c, m, t);
      RememberHelp(c, m, t);
    case Verbose(t) =>
      RememberOne(c, m, t);
      RememberVerbose(c, m, t);
    case Debug(long, level) =>
      RememberOne(c, m, DebugToken(long, level));
      RememberDebug(c, m, long, level);
    case Nothing =>
      RememberOne(c, m, "");
      RememberIgnored(c, m, "");
    case Skip(t) =>
      RememberOne(c, m, t);
      RememberIgnored(c, m, t);
    case SkipTwo(t, arg) =>
      RememberAppend(c, m, [t], [arg]);
      RememberOne(c, m, t);
      RememberIgnored(c, m, t);
      RememberOne(c, m.(ignoreOnce := true), arg);
      assert [t] + [arg] == [t, arg];
    case Region(on, inside, off) =>
      RememberRegion(c, m, on, inside, off);
  }

  function TokensOfPieces(ps: seq<Piece>): seq<string> {
    if ps == [] then [] else TokensOfPiece(ps[0]) + TokensOfPieces(ps[1..])
  }

  function Effects(c: Ignoring, ps: seq<Piece>, m: Memory): Memory
    requires forall p <- ps :: PieceOk(c, p)
  {
    if ps == [] then m else Effects(c, ps[1..], Effect(c, ps[0], m))
  }

  /** The first pass does what the pieces of a command line ask for, one after the other, and nothing else. */
  lemma {:induction false} PiecesHaveEffect(c: Ignoring, m: Memory, ps: seq<Piece>)
    requires !m.ignoreOnce && !m.ignoreOpts && forall p <- ps :: PieceOk(c, p)
    ensures RememberAll(c, m, TokensOfPieces(ps)) == Effects(c, ps, m)
    decreases |ps|
  {
    hide RememberAll, TokensOfPiece, PieceOk, LevelOf;
    if ps == [] {
      AllOfNothing(c, m);
    } else {
      var m' := Effect(c, ps[0], m);
      PieceHasEffect(c, m, ps[0]);
      RememberAppend(c, m, TokensOfPiece(ps[0]), TokensOfPieces(ps[1..]));
      PiecesHaveEffect(c, m', ps[1..]);
    }
  }

  /** A whole command line through both passes: what is said with the names of options comes to these options. */
  lemma CommandLinesAreUnderstood(c: Ignoring, os: seq<Option>, ps: seq<Piece>, items: seq<Item>)
    requires (forall p <- ps :: PieceOk(c, p)) && (forall i <- items :: InRange(os, i)) && AllSayable(os, items)
    requires Effects(c, ps, NEW).args == Tokens(os, items)
    ensures var m := RememberAll(c, NEW, TokensOfPieces(ps));
            var rs := Roles(os, m.args);
            && m == Effects(c, ps, NEW)
            && (forall j | 0 <= j < |os| :: ValuesFor(rs, m.args, j) == Assigned(items, j))
            && Unrecognizeds(rs, m.args) == LooseTexts(items) && Lackings(rs, m.args) == LackingNames(os, items)
  {
    PiecesHaveEffect(c, NEW, ps);
    hide *;
    TokensAreUnderstood(os, items);
  }

  // ----- the final checks

  /** Which options are missing, and which are repeated. */
  lemma {:induction false} FaultsExactly(os: seq<Option>, name: string)
    ensures name in Missing(os) <==> exists o <- os :: o.required && o.values == [] && o.longOpt == name
    ensures name in Repeated(os) <==> exists o <- os :: !o.repeat && |o.values| > 1 && o.longOpt == name
  {
    if os != [] {
      var rest, o := os[..|os| - 1], os[|os| - 1];
      FaultsExactly(rest, name);
      assert os == rest + [o];
    }
  }

  /** The special options of a program get what the first pass has found. */
  lemma SpecialOptionsAreFilled(o: Option, help: bool, verbose: bool, debug: int)
    ensures var found := match o.longOpt
                         case "help" => if help then ["T"] else []
                         case "verbose" => if verbose then ["T"] else []
                         case "debug" => if debug >= 0 then [Decimal(debug)] else []
                         case _ => [];
            WithSpecial(o, help, verbose, debug) == o.(values := o.values + found)
  {
    assert o.values + [] == o.values;
  }
}
