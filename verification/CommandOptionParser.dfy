/** The command-line parser that declares its options to getopt and files what getopt reports. */
module CommandOptionParser {
  import opened Prelude
  import opened Getopt
  import opened GetoptScanner
  import opened CommandOptions
  import opened CommandOptionUses

  class Parser {
    var optionVec: seq<CommandOption>
    var errorStrings: seq<Fault>
    var hasRequiredArguments: bool
    var hasOptionalArguments: bool

    constructor ()
      ensures optionVec == [] && errorStrings == [] && !hasRequiredArguments && !hasOptionalArguments
    {
      optionVec, errorStrings, hasRequiredArguments, hasOptionalArguments := [], [], false, false;
    }

    /** No two options share a letter or a long name, and at most one is trailing. */
    ghost predicate Compatible()
      reads this
    {
      Distinct(optionVec)
    }

    method AddOption(co: CommandOption) returns (r: Option<ClashError>)
      modifies this`optionVec
      ensures match r
              case None =>
                && optionVec == old(optionVec) + [co]
                && (forall i :: 0 <= i < |old(optionVec)| ==> Clash(old(optionVec)[i], co) == None)
              case Some(e) =>
                && optionVec == old(optionVec)
                && exists i :: && 0 <= i < |optionVec| && Clash(optionVec[i], co) == r
                               && forall j :: 0 <= j < i ==> Clash(optionVec[j], co) == None
      ensures old(Compatible()) ==> Compatible() && (r == None <==> Distinct(old(optionVec) + [co]))
      ensures match r
              case None => true
              case Some(ShortInUse(c)) => c == co.shortOpt && exists o <- optionVec :: o.shortOpt == c
              case Some(LongInUse(name)) => name == co.longOpt && exists o <- optionVec :: o.longOpt == name
              case Some(MultipleTrailing) => co.optType == Trailing && exists o <- optionVec :: o.optType == Trailing
    {
      if Compatible() {
        DistinctAfter(optionVec, co);
      }
      hide Distinct;
      for i := 0 to |optionVec|
        invariant optionVec == old(optionVec)
        invariant forall j :: 0 <= j < i ==> Clash(optionVec[j], co) == None
      {
        var o := optionVec[i];
        if co.shortOpt != NO_LETTER && o.shortOpt == co.shortOpt {
          return Some(ShortInUse(co.shortOpt));
        }
        if co.longOpt != "" && o.longOpt == co.longOpt {
          return Some(LongInUse(co.longOpt));
        }
        if o.optType == Trailing && co.optType == Trailing {
          return Some(MultipleTrailing);
        }
      }
      optionVec := optionVec + [co];
      return None;
    }

    /** Build the inputs of getopt from the options. */
    method BuildTables() returns (d: Declared)
      modifies this`errorStrings, this`hasRequiredArguments, this`hasOptionalArguments
      ensures d == Declarations(optionVec)
      ensures errorStrings == old(errorStrings) + d.faults
      ensures hasRequiredArguments == (old(hasRequiredArguments) || d.required)
      ensures hasOptionalArguments == (old(hasOptionalArguments) || d.optional)
    {
      hide Declarations;
      var letters, table, com, trailing: Option<CommandOption> := "", [], map[], None;
      d := Declared("", [], map[], None, [], false, false);
      DeclareNone(optionVec);
      for index := 0 to |optionVec|
        invariant d == Declarations(optionVec[..index])
        invariant letters == d.letters && table == d.table && com == d.com && trailing == d.trailing
        invariant errorStrings == old(errorStrings) + d.faults
        invariant hasRequiredArguments == (old(hasRequiredArguments) || d.required)
        invariant hasOptionalArguments == (old(hasOptionalArguments) || d.optional)
      {
        var o := optionVec[index];
        DeclareNext(optionVec, index);
        match o.optType {
          case Trailing =>
            if trailing.Some? {
              errorStrings := errorStrings + [SecondTrailing];
            } else {
              trailing := Some(o);
            }
          case Standard =>
            if o.shortOpt != NO_LETTER {
              letters := letters + ([o.shortOpt] + (if o.hasArgument then ":" else ""));
              com := com[[o.shortOpt] := o];
            }
            if o.longOpt != "" {
              table := table + [LongOption(o.longOpt, if o.hasArgument then 1 else 0, None, 0)];
              com := com[o.longOpt := o];
            }
            if o.required {
              hasRequiredArguments := true;
            } else {
              hasOptionalArguments := true;
            }
          case Meta =>
        }
        d := Declare(d, o);
      }
      assert optionVec[..|optionVec|] == optionVec;
    }

    /** File one event under the option it names, or as an error. */
    method FileEvent(d: Declared, e: Event, ordinal: nat, optopt: int)
      requires d == Declarations(optionVec)
      modifies this`errorStrings
      modifies set o <- optionVec :: o`count, set o <- optionVec :: o`order, set o <- optionVec :: o`value
      ensures errorStrings == old(errorStrings) + FaultOf(optionVec, e, optopt)
      ensures forall o <- optionVec ::
                && o.count == old(o.count) + (if Occurs(optionVec, e, o) then 1 else 0)
                && o.order == old(o.order) + (if Occurs(optionVec, e, o) then [ordinal] else [])
                && o.value
                   == old(o.value) + (if Occurs(optionVec, e, o) && e.optarg.Some? then [e.optarg.value] else [])
    {
      var com, table := d.com, d.table;
      ComRange(optionVec);
      assert com == Com(optionVec) && table == Table(optionVec);
      if e.code == QUESTION || e.code == COLON {
        errorStrings := errorStrings + [OptionError(if optopt != 0 then Some(LetterOf(optopt)) else None)];
        return;
      }
      var thisOption := NameOf(table, e);
      if thisOption !in com {
        errorStrings := errorStrings + [UnknownOption];
        return;
      }
      var picked := com[thisOption];
      if e.optarg.Some? {
        if picked.hasArgument {
          picked.value := picked.value + [e.optarg.value];
          picked.count := picked.count + 1;
          picked.order := picked.order + [ordinal];
        } else {
          errorStrings := errorStrings + [HasArgument(thisOption)];
        }
      } else if picked.hasArgument {
        errorStrings := errorStrings + [LacksArgument(thisOption)];
      } else {
        picked.count := picked.count + 1;
        picked.order := picked.order + [ordinal];
      }
    }

    /** File event number |events| + 1 after all the events before it. */
    method FileNext(d: Declared, e: Event, optopt: int, ghost was: map<CommandOption, Collected>,
                    ghost events: seq<Event>, order: nat)
      requires d == Declarations(optionVec) && order == |events| + 1 && Filed(was, optionVec, events)
      modifies this`errorStrings
      modifies set o <- optionVec :: o`count, set o <- optionVec :: o`order, set o <- optionVec :: o`value
      ensures errorStrings == old(errorStrings) + FaultOf(optionVec, e, optopt)
      ensures Filed(was, optionVec, events + [e])
    {
      hide Declarations, Occurs;
      FileEvent(d, e, order, optopt);
      assert (events + [e])[..|events|] == events;
    }

    /** The operands go to the trailing option, with order numbers after those of the options. */
    method FileOperands(t: CommandOption, argv: array<string>, from: nat, ordinal: nat)
      requires from <= argv.Length
      modifies t`count, t`order, t`value
      ensures t.count == old(t.count) + (argv.Length - from)
      ensures t.value == old(t.value) + argv[from..]
      ensures t.order == old(t.order) + Following(ordinal, argv.Length - from)
    {
      for i := from to argv.Length
        invariant t.count == old(t.count) + (i - from)
        invariant t.value == old(t.value) + argv[from..i]
        invariant t.order == old(t.order) + Following(ordinal, i - from)
      {
        t.value := t.value + [argv[i]];
        t.count := t.count + 1;
        t.order := t.order + [ordinal + 1 + (i - from)];
        assert argv[from..i + 1] == argv[from..i] + [argv[i]];
      }
      assert argv[from..] == argv[from..argv.Length];
    }

    /** Check for remaining arguments. */
    method FileRest(trailing: Option<CommandOption>, argv: array<string>, optind: nat, order: nat,
                    ghost was: map<CommandOption, Collected>, ghost out: Outcome)
      requires trailing.Some? ==> trailing.value in optionVec
      requires optind <= argv.Length && argv[optind..] == out.operands && order == |out.events|
      requires Filed(was, optionVec, out.events)
      modifies set o <- optionVec :: o`count, set o <- optionVec :: o`order, set o <- optionVec :: o`value
      ensures FiledWithRest(was, optionVec, out, trailing)
    {
      if optind < argv.Length && trailing.Some? {
        FileOperands(trailing.value, argv, optind, order);
      }
    }

    method CheckOption(o: CommandOption)
      modifies this`errorStrings
      ensures errorStrings == old(errorStrings) + CheckFault(o)
    {
      if o.required && o.count == 0 {
        errorStrings := errorStrings + [RequiredMissing];
      }
      if o.maxCount != 0 && o.count > o.maxCount {
        errorStrings := errorStrings + [TooMany];
      }
    }

    /** Missing required options, and options given too often. */
    method CheckOptions()
      modifies this`errorStrings
      ensures errorStrings == old(errorStrings) + CheckFaults(optionVec)
    {
      ghost var was, opts := errorStrings, optionVec;
      assert CheckFaults(opts[..0]) == [];
      hide CheckFaults, CheckFault;
      for index := 0 to |optionVec|
        invariant optionVec == opts && errorStrings == was + CheckFaults(opts[..index])
      {
        var o := optionVec[index];
        CheckNext(opts, index);
        CheckOption(o);
      }
      assert opts[..|opts|] == opts;
    }

    /** Whether a parser may use the scanner: no scan was begun, or one in strict order was completed. */
    static ghost predicate Usable(g: Scanner)
      reads g
    {
      g.initialized ==> g.ordering == RequireOrder && g.nextchar == "" && 1 <= g.firstNonopt <= g.lastNonopt
    }

    static lemma FiledNone(opts: seq<CommandOption>)
      ensures Filed(Snapshot(opts), opts, [])
    {
      assert Faults(opts, [], 0) == [];
    }

    /** The state of the scan after `order` events of the expected outcome. */
    ghost predicate Underway(g: Scanner, args: seq<string>, cfg: Config, out: Outcome, order: nat)
      reads g
    {
      && args != [] && g.Ready(args) && g.Order(cfg) == RequireOrder && 1 <= g.optind
      && order <= |out.events|
      && var plan := g.Plan(args, cfg);
         plan.events == out.events[order..] && plan.operands == out.operands && plan.ended == out.ended
    }

    lemma UnderwayAtStart(g: Scanner, args: seq<string>, opts: seq<CommandOption>)
      requires args != [] && Usable(g) && g.optind == 1
      ensures Underway(g, args, Configuration(opts), Expected(opts, args, !g.initialized), 0)
    {
      hide Scan;
      var cfg := Configuration(opts);
      assert cfg.optstring[1..] == Declarations(opts).letters;
      assert args[1..1] == [];
    }

    /** One call of getopt in a scan that is underway. */
    method ScanNext(g: Scanner, argv: array<string>, cfg: Config, ghost out: Outcome, ghost order: nat)
      returns (r: Option<Event>)
      requires Underway(g, argv[..], cfg, out, order) && g.optind < argv.Length && NoLongW(cfg.optstring)
      modifies g, argv
      ensures argv[..] == old(argv[..])
      ensures match r
              case Some(e) =>
                order < |out.events| && e == out.events[order] && Underway(g, argv[..], cfg, out, order + 1)
              case None =>
                && order == |out.events| && (out.ended || out.operands != [])
                && g.optind <= argv.Length && argv[g.optind..] == out.operands && Usable(g)
    {
      g.PlanInOrder(argv[..], cfg);
      r := g.Next(argv, cfg);
      if r.Some? {
        g.PlanInOrder(argv[..], cfg);
      }
    }

    lemma AllScanned(g: Scanner, args: seq<string>, cfg: Config, out: Outcome, order: nat)
      requires Underway(g, args, cfg, out, order) && g.optind >= |args|
      ensures g.optind == |args| && order == |out.events| && out.operands == [] && !out.ended && Usable(g)
    {
      g.PlanInOrder(args, cfg);
    }

    /** The events so far are filed, and the errors among them recorded. */
    ghost predicate Accounted(was: map<CommandOption, Collected>, faults: seq<Fault>, events: seq<Event>,
                              optopt: int, optopt': int)
      reads this, set o | o in optionVec
    {
      && Filed(was, optionVec, events)
      && errorStrings == faults + Faults(optionVec, events, optopt)
      && optopt' == OptoptAfter(optopt, events)
    }

    /** Get one option from getopt and file it; `more` is false at the end of the options. */
    method ScanOption(g: Scanner, argv: array<string>, d: Declared, cfg: Config, optopt': int,
                      ghost was: map<CommandOption, Collected>, ghost faults: seq<Fault>, ghost optopt: int,
                      ghost out: Outcome, order: nat)
      returns (more: bool, optopt'': int)
      requires d == Declarations(optionVec) && cfg == Configuration(optionVec) && NoLongW(cfg.optstring)
      requires Underway(g, argv[..], cfg, out, order) && g.optind < argv.Length
      requires Accounted(was, faults, out.events[..order], optopt, optopt')
      modifies this`errorStrings
      modifies set o <- optionVec :: o`count, set o <- optionVec :: o`order, set o <- optionVec :: o`value
      modifies g, argv
      ensures argv[..] == old(argv[..])
      ensures if more then
                && order < |out.events|
                && Underway(g, argv[..], cfg, out, order + 1)
                && Accounted(was, faults, out.events[..order + 1], optopt, optopt'')
              else
                && order == |out.events| && (out.ended || out.operands != [])
                && g.optind <= argv.Length && argv[g.optind..] == out.operands && Usable(g)
                && Accounted(was, faults, out.events, optopt, optopt'')
    {
      hide Declarations, Filed, FaultOf, Faults, OptoptAfter, Underway;
      var r := ScanNext(g, argv, cfg, out, order);
      if r == None {
        assert out.events[..order] == out.events;
        return false, optopt';
      }
      var e := r.value;
      ghost var filed := out.events[..order];
      assert out.events[..order + 1] == filed + [e];
      FaultsNext(optionVec, filed, e, optopt);
      optopt'' := if e.optopt.Some? then e.optopt.value else optopt';
      FileNext(d, e, optopt'', was, filed, order + 1);
      more := true;
    }

    /** Scan the options, up to the first operand or `--`. */
    method ScanOptions(g: Scanner, argv: array<string>, d: Declared, optopt: int, ghost out: Outcome)
      returns (order: nat)
      requires argv.Length >= 1 && Underway(g, argv[..], Configuration(optionVec), out, 0)
      requires d == Declarations(optionVec) && NoLongW(Configuration(optionVec).optstring)
      modifies this`errorStrings
      modifies set o <- optionVec :: o`count, set o <- optionVec :: o`order, set o <- optionVec :: o`value
      modifies g, argv
      ensures argv[..] == old(argv[..])
      ensures order == |out.events| && g.optind <= argv.Length && argv[g.optind..] == out.operands && Usable(g)
      ensures errorStrings == old(errorStrings) + Faults(optionVec, out.events, optopt)
                              + if (out.ended || out.operands != []) && d.trailing == None then [Excess] else []
      ensures Filed(old(Snapshot(optionVec)), optionVec, out.events)
    {
      hide Declarations, Filed, Snapshot, FaultOf, Underway;
      var cfg := Config("+" + d.letters, Some(d.table), false);
      ghost var was, opts, faults := Snapshot(optionVec), optionVec, errorStrings;
      FiledNone(optionVec);
      var optopt', more := optopt, true;
      order := 0;
      while g.optind < argv.Length
        invariant argv[..] == old(argv[..]) && optionVec == opts
        invariant Underway(g, argv[..], cfg, out, order) && order <= |out.events|
        invariant Accounted(was, faults, out.events[..order], optopt, optopt')
        decreases |out.events| - order
      {
        more, optopt' := ScanOption(g, argv, d, cfg, optopt', was, faults, optopt, out, order);
        if !more {
          if d.trailing == None {
            errorStrings := errorStrings + [Excess];
          }
          break;
        }
        order := order + 1;
      }
      if more {
        AllScanned(g, argv[..], cfg, out, order);
      }
      assert out.events[..order] == out.events;
    }

    /**
     Parse a command line.  `argv` is left as it was; every option has collected its occurrences
     among the events getopt is expected to report, the trailing option has collected all the
     operands in order and numbered after the options, and each irregularity has left its error.
     `optopt` is the value the global of that name has on entry.
     */
    method ParseOptions(g: Scanner, argv: array<string>, optopt: int)
      requires argv.Length >= 1 && Usable(g)
      requires NoLongW(Configuration(optionVec).optstring)
      modifies this`errorStrings, this`hasRequiredArguments, this`hasOptionalArguments
      modifies set o <- optionVec :: o`count, set o <- optionVec :: o`order, set o <- optionVec :: o`value
      modifies g, argv
      ensures argv[..] == old(argv[..]) && Usable(g)
      ensures old(AllFresh(optionVec)) ==>
                var out := Expected(optionVec, argv[..], old(!g.initialized));
                Tallied(optionVec, Declarations(optionVec).trailing, argv[..], out)
      ensures var d, out, was := Declarations(optionVec), Expected(optionVec, argv[..], old(!g.initialized)),
                                 old(Snapshot(optionVec));
              && FiledWithRest(was, optionVec, out, d.trailing)
              && errorStrings == old(errorStrings) + d.faults + Faults(optionVec, out.events, optopt)
                                 + (if (out.ended || out.operands != []) && d.trailing == None then [Excess] else [])
                                 + CheckFaults(optionVec)
      ensures old(AllFresh(optionVec)) && Sensible(optionVec) ==>
                Answered(optionVec, argv[..], old(errorStrings), errorStrings)
    {
      hide Scan, Declarations, Filed, FiledWithRest, Expected, CheckFaults, Snapshot, Underway;
      hide AllFresh, NothingBefore, Tallied, TrailingOf, Configuration, Faults, Sensible, Answered;
      ghost var was := Snapshot(optionVec);
      FreshSnapshot(optionVec);
      TrailingIs(optionVec);
      ghost var out := Expected(optionVec, argv[..], !g.initialized);
      var d := BuildTables();
      TrailingIn(optionVec);
      g.optind := 1;
      UnderwayAtStart(g, argv[..], optionVec);
      var order := ScanOptions(g, argv, d, optopt, out);
      FileRest(d.trailing, argv, g.optind, order, was, out);
      CheckOptions();
      AfterParse(was, optionVec, argv[..], old(!g.initialized), optopt, old(errorStrings), errorStrings);
    }
  }
}
