/** The options of a command-line parser: what they declare to getopt, and what is filed for its reports. */
module CommandOptions {
  import opened Prelude
  import opened Getopt
  import opened GetoptProperties

  datatype OptionType = Trailing | Standard | Meta

  /** The text of an entry of `errorStrings`, as far as it is modelled. */
  datatype Fault =
    | SecondTrailing
    | OptionError(letter: Option<char>)
    | HasArgument(name: string)
    | LacksArgument(name: string)
    | UnknownOption
    | Excess
    | RequiredMissing
    | TooMany

  datatype ClashError = ShortInUse(c: char) | LongInUse(name: string) | MultipleTrailing

  const NO_LETTER := '\0'

  class CommandOption {
    const hasArgument: bool
    const optType: OptionType
    const shortOpt: char
    const longOpt: string
    const required: bool
    var maxCount: nat
    var value: seq<string>
    var count: nat
    var order: seq<nat>

    constructor (hasArgument: bool, optType: OptionType, shortOpt: char, longOpt: string, required: bool)
      ensures this.hasArgument == hasArgument && this.optType == optType && this.required == required
      ensures this.shortOpt == shortOpt && this.longOpt == longOpt
      ensures maxCount == 0 && value == [] && count == 0 && order == []
    {
      this.hasArgument, this.optType, this.required := hasArgument, optType, required;
      this.shortOpt, this.longOpt := shortOpt, longOpt;
      maxCount, value, count, order := 0, [], 0, [];
    }
  }

  // ----- what the options declare to getopt

  /**
   What the options amount to: the option string and the long-option table for getopt, the option
   each letter or long name stands for, the option that receives the operands, and how often
   another one was declared for that; and whether there are required and optional options.
   */
  datatype Declared = Declared(letters: string, table: seq<LongOption>, com: map<string, CommandOption>,
                               trailing: Option<CommandOption>, faults: seq<Fault>,
                               required: bool, optional: bool)

  function Declare(d: Declared, o: CommandOption): Declared {
    match o.optType
    case Meta => d
    case Trailing =>
      if d.trailing.Some? then d.(faults := d.faults + [SecondTrailing]) else d.(trailing := Some(o))
    case Standard =>
      var com := if o.shortOpt != NO_LETTER then d.com[[o.shortOpt] := o] else d.com;
      d.(letters := d.letters + ShortOption(o),
         table := d.table + LongOptions(o),
         com := if o.longOpt != "" then com[o.longOpt := o] else com,
         required := d.required || o.required,
         optional := d.optional || !o.required)
  }

  /** The letter of an option, followed by `:` if it takes an argument. */
  function ShortOption(o: CommandOption): string {
    if o.shortOpt == NO_LETTER then "" else [o.shortOpt] + (if o.hasArgument then ":" else "")
  }

  /** The row of an option in the table: it sets no flag and returns 0. */
  function LongOptions(o: CommandOption): seq<LongOption> {
    if o.longOpt == "" then [] else [LongOption(o.longOpt, if o.hasArgument then 1 else 0, None, 0)]
  }

  function Declarations(opts: seq<CommandOption>): Declared {
    if opts == [] then Declared("", [], map[], None, [], false, false)
    else Declare(Declarations(opts[..|opts| - 1]), opts[|opts| - 1])
  }

  lemma DeclareNone(opts: seq<CommandOption>)
    ensures Declarations(opts[..0]) == Declared("", [], map[], None, [], false, false)
  {
  }

  lemma DeclareNext(opts: seq<CommandOption>, index: nat)
    requires index < |opts|
    ensures Declarations(opts[..index + 1]) == Declare(Declarations(opts[..index]), opts[index])
  {
    assert opts[..index + 1][..index] == opts[..index];
  }

  /** Required and optional options are noticed, and trailing options after the first are errors. */
  lemma {:induction false} DeclaredExactly(opts: seq<CommandOption>)
    ensures Declarations(opts).required <==> exists o <- opts :: o.optType == Standard && o.required
    ensures Declarations(opts).optional <==> exists o <- opts :: o.optType == Standard && !o.required
    ensures Declarations(opts).trailing == None <==> forall o <- opts :: o.optType != Trailing
    ensures forall f <- Declarations(opts).faults :: f == SecondTrailing
    ensures var ts := Trailings(opts);
            |Declarations(opts).faults| == (if ts == 0 then 0 else ts - 1)
  {
    if opts != [] {
      var rest, o := opts[..|opts| - 1], opts[|opts| - 1];
      DeclaredExactly(rest);
      hide Declarations, ShortOption, LongOptions;
      assert opts == rest + [o];
      DeclareLast(rest, o);
      SomeTrailing(rest);
    }
  }

  lemma DeclareLast(opts: seq<CommandOption>, o: CommandOption)
    ensures Declarations(opts + [o]) == Declare(Declarations(opts), o)
    ensures Trailings(opts + [o]) == Trailings(opts) + if o.optType == Trailing then 1 else 0
  {
    assert (opts + [o])[..|opts|] == opts;
  }

  lemma {:induction false} SomeTrailing(opts: seq<CommandOption>)
    ensures Trailings(opts) == 0 <==> forall o <- opts :: o.optType != Trailing
  {
    if opts != [] {
      SomeTrailing(opts[..|opts| - 1]);
      assert opts == opts[..|opts| - 1] + [opts[|opts| - 1]];
    }
  }

  function Trailings(opts: seq<CommandOption>): nat {
    if opts == [] then 0
    else Trailings(opts[..|opts| - 1]) + if opts[|opts| - 1].optType == Trailing then 1 else 0
  }

  function Table(opts: seq<CommandOption>): seq<LongOption> {
    Declarations(opts).table
  }

  function Com(opts: seq<CommandOption>): map<string, CommandOption> {
    Declarations(opts).com
  }

  function TrailingOf(opts: seq<CommandOption>): Option<CommandOption> {
    Declarations(opts).trailing
  }

  function Configuration(opts: seq<CommandOption>): Config {
    Config("+" + Declarations(opts).letters, Some(Table(opts)), false)
  }

  // ----- what is filed for an event

  /** The character a code stands for. */
  function LetterOf(code: int): char {
    if 0 <= code < 0xD800 || 0xE000 <= code < 0x11_0000 then code as char else NO_LETTER
  }

  predicate IsError(e: Event) {
    e.code == QUESTION || e.code == COLON
  }

  function NameOf(table: seq<LongOption>, e: Event): string {
    if e.code != 0 then [LetterOf(e.code)]
    else match e.longind
         case Some(i) => if i < |table| then table[i].name else ""
         case None => ""
  }

  /** The event is an occurrence of option `o`, with an argument exactly if it takes one. */
  predicate Occurs(opts: seq<CommandOption>, e: Event, o: CommandOption) {
    var name := NameOf(Table(opts), e);
    !IsError(e) && name in Com(opts) && Com(opts)[name] == o && o.hasArgument == e.optarg.Some?
  }

  /** The order numbers of the occurrences of `o`: event number i has order i + 1. */
  function Orders(opts: seq<CommandOption>, events: seq<Event>, o: CommandOption): seq<nat> {
    if events == [] then []
    else
      Orders(opts, events[..|events| - 1], o) +
      if Occurs(opts, events[|events| - 1], o) then [|events|] else []
  }

  /** The arguments of the occurrences of `o`. */
  function Values(opts: seq<CommandOption>, events: seq<Event>, o: CommandOption): seq<string> {
    if events == [] then []
    else
      var e := events[|events| - 1];
      Values(opts, events[..|events| - 1], o) +
      if Occurs(opts, e, o) && e.optarg.Some? then [e.optarg.value] else []
  }

  /** What the global `optopt` holds after the events. */
  function OptoptAfter(optopt: int, events: seq<Event>): int {
    if events == [] then optopt
    else match events[|events| - 1].optopt
         case Some(c) => c
         case None => OptoptAfter(optopt, events[..|events| - 1])
  }

  function FaultOf(opts: seq<CommandOption>, e: Event, optopt: int): seq<Fault> {
    var name := NameOf(Table(opts), e);
    if IsError(e) then [OptionError(if optopt != 0 then Some(LetterOf(optopt)) else None)]
    else if name !in Com(opts) then [UnknownOption]
    else if Com(opts)[name].hasArgument == e.optarg.Some? then []
    else if e.optarg.Some? then [HasArgument(name)] else [LacksArgument(name)]
  }

  function Faults(opts: seq<CommandOption>, events: seq<Event>, optopt: int): seq<Fault> {
    if events == [] then []
    else
      Faults(opts, events[..|events| - 1], optopt) +
      FaultOf(opts, events[|events| - 1], OptoptAfter(optopt, events))
  }

  lemma FaultsNext(opts: seq<CommandOption>, events: seq<Event>, e: Event, optopt: int)
    ensures OptoptAfter(optopt, events + [e]) == if e.optopt.Some? then e.optopt.value else OptoptAfter(optopt, events)
    ensures Faults(opts, events + [e], optopt) ==
            Faults(opts, events, optopt) + FaultOf(opts, e, OptoptAfter(optopt, events + [e]))
  {
    hide FaultOf;
    assert (events + [e])[..|events|] == events;
  }

  /** The outcome of scanning a command line, on the first use of getopt in a program or later. */
  ghost function Expected(opts: seq<CommandOption>, args: seq<string>, first: bool): Outcome
    requires args != []
  {
    var cfg := Configuration(opts);
    Scan(cfg, RequireOrder, if first then Declarations(opts).letters else cfg.optstring, args[1..], "")
  }

  /** The `n` order numbers after `ordinal`. */
  function Following(ordinal: nat, n: nat): seq<nat> {
    seq(n, i requires 0 <= i => ordinal + 1 + i)
  }

  /** What an option had collected: its count, its order numbers, its arguments. */
  datatype Collected = Collected(count: nat, order: seq<nat>, value: seq<string>)

  function Snapshot(opts: seq<CommandOption>): map<CommandOption, Collected>
    reads set o | o in opts
  {
    map o | o in opts :: Collected(o.count, o.order, o.value)
  }

  /** Every option has collected its occurrences among the events, on top of what it had. */
  ghost predicate Filed(was: map<CommandOption, Collected>, opts: seq<CommandOption>, events: seq<Event>)
    reads set o | o in opts
  {
    forall o <- opts :: o in was
      && o.count == was[o].count + |Orders(opts, events, o)|
      && o.order == was[o].order + Orders(opts, events, o)
      && o.value == was[o].value + Values(opts, events, o)
  }

  /** As `Filed`, and the trailing option has collected the operands, numbered after the events. */
  ghost predicate FiledWithRest(was: map<CommandOption, Collected>, opts: seq<CommandOption>, out: Outcome,
                                trailing: Option<CommandOption>)
    reads set o | o in opts
  {
    forall o <- opts :: o in was &&
      var rest := if trailing == Some(o) then out.operands else [];
      && o.count == was[o].count + |Orders(opts, out.events, o)| + |rest|
      && o.order == was[o].order + Orders(opts, out.events, o) + Following(|out.events|, |rest|)
      && o.value == was[o].value + Values(opts, out.events, o) + rest
  }

  /** Options as they are made. */
  predicate AllFresh(opts: seq<CommandOption>)
    reads set o | o in opts
  {
    forall o <- opts :: o.count == 0 && o.order == [] && o.value == []
  }

  /** The operands are what follows the options, from the first operand or behind a `--`. */
  ghost predicate LeftOver(args: seq<string>, out: Outcome) {
    && args != [] && args[1..] == out.options + out.operands
    && if out.ended then out.options != [] && out.options[|out.options| - 1] == "--"
       else out.operands != [] ==> NonOption(out.operands[0])
  }

  /**
   The records of fresh options: as many order numbers as occurrences, in order and shared by no two
   options, a value for each occurrence that has one, and the rest of the line for the trailing option.
   */
  ghost predicate Tallied(opts: seq<CommandOption>, trailing: Option<CommandOption>, args: seq<string>, out: Outcome)
    reads set o | o in opts
  {
    && LeftOver(args, out)
    && (forall o <- opts ::
          && o.count == |o.order| && Rising(o.order)
          && (trailing == Some(o) ==> o.value == out.operands && o.count == |o.value|)
          && (trailing != Some(o) ==> |o.value| == if o.hasArgument then o.count else 0))
    && forall o <- opts, p <- opts, k :: k in o.order && k in p.order ==> o == p
  }

  function CheckFault(o: CommandOption): seq<Fault>
    reads o
  {
    (if o.required && o.count == 0 then [RequiredMissing] else [])
    + (if o.maxCount != 0 && o.count > o.maxCount then [TooMany] else [])
  }

  function CheckFaults(opts: seq<CommandOption>): seq<Fault>
    reads set o | o in opts
  {
    if opts == [] then [] else CheckFaults(opts[..|opts| - 1]) + CheckFault(opts[|opts| - 1])
  }

  lemma CheckNext(opts: seq<CommandOption>, index: nat)
    requires index < |opts|
    ensures CheckFaults(opts[..index + 1]) == CheckFaults(opts[..index]) + CheckFault(opts[index])
  {
    assert opts[..index + 1][..index] == opts[..index];
  }

  /** The final checks find a required option without a use, and one with more uses than it may have. */
  lemma {:induction false} CheckFaultsExactly(opts: seq<CommandOption>, f: Fault)
    ensures f in CheckFaults(opts)
       <==> || (f == RequiredMissing && exists o <- opts :: o.required && o.count == 0)
            || (f == TooMany && exists o <- opts :: 0 < o.maxCount < o.count)
    ensures |CheckFaults(opts)| <= 2 * |opts|
  {
    if opts != [] {
      var rest, o := opts[..|opts| - 1], opts[|opts| - 1];
      CheckFaultsExactly(rest, f);
      assert opts == rest + [o];
    }
  }

  lemma {:induction false} ComRange(opts: seq<CommandOption>)
    ensures forall name <- Com(opts) :: Com(opts)[name] in opts && Com(opts)[name].optType == Standard
  {
    if opts != [] {
      var rest := opts[..|opts| - 1];
      ComRange(rest);
      assert forall o <- rest :: o in opts;
      forall name | name in Com(opts)
        ensures Com(opts)[name] in opts && Com(opts)[name].optType == Standard
      {
        var o := opts[|rest|];
        assert if name in Com(rest) && (o.optType != Standard || (name != [o.shortOpt] && name != o.longOpt))
          then Com(opts)[name] == Com(rest)[name] else true;
      }
    }
  }

  lemma {:induction false} TrailingIn(opts: seq<CommandOption>)
    ensures TrailingOf(opts).Some? ==> TrailingOf(opts).value in opts && TrailingOf(opts).value.optType == Trailing
  {
    if opts != [] {
      var rest := opts[..|opts| - 1];
      TrailingIn(rest);
      assert forall o <- rest :: o in opts;
    }
  }

  /** The trailing option is never named on the command line. */
  lemma {:induction false} TrailingNeverOccurs(opts: seq<CommandOption>, events: seq<Event>, t: CommandOption)
    requires t.optType == Trailing
    ensures Orders(opts, events, t) == [] && Values(opts, events, t) == []
  {
    if events != [] {
      ComRange(opts);
      TrailingNeverOccurs(opts, events[..|events| - 1], t);
    }
  }

  // ----- what the collected records mean

  predicate Rising(numbers: seq<nat>) {
    forall i, j :: 0 <= i < j < |numbers| ==> numbers[i] < numbers[j]
  }

  /** Event number k is among the order numbers of an option exactly if it is an occurrence of it. */
  lemma {:induction false} OrdersAreOccurrences(opts: seq<CommandOption>, events: seq<Event>, o: CommandOption)
    ensures forall k :: k in Orders(opts, events, o) <==> 1 <= k <= |events| && Occurs(opts, events[k - 1], o)
    ensures Rising(Orders(opts, events, o))
  {
    hide Occurs, Rising;
    if events == [] {
      RisingMore([], 0);
    } else {
      OrdersAreOccurrences(opts, events[..|events| - 1], o);
      var before := Orders(opts, events[..|events| - 1], o);
      RisingMore(before, |events|);
      assert before + [] == before;
    }
  }

  lemma RisingMore(numbers: seq<nat>, next: nat)
    ensures Rising([])
    ensures Rising(numbers) && (forall k <- numbers :: k < next) ==> Rising(numbers + [next])
  {
    assert forall i :: 0 <= i < |numbers| ==> numbers[i] in numbers;
  }

  /** No two options ever share an order number. */
  lemma OrdersNotShared(opts: seq<CommandOption>, events: seq<Event>, o: CommandOption, p: CommandOption, k: nat)
    requires k in Orders(opts, events, o) && k in Orders(opts, events, p)
    ensures o == p
  {
    OrdersAreOccurrences(opts, events, o);
    OrdersAreOccurrences(opts, events, p);
  }

  /** An option that takes arguments has one value for each occurrence, any other has none. */
  lemma {:induction false} ValuePerOccurrence(opts: seq<CommandOption>, events: seq<Event>, o: CommandOption)
    ensures |Values(opts, events, o)| == if o.hasArgument then |Orders(opts, events, o)| else 0
  {
    if events != [] {
      ValuePerOccurrence(opts, events[..|events| - 1], o);
    }
  }

  // ----- a parse with fresh options

  lemma ExpectedLeavesRest(opts: seq<CommandOption>, args: seq<string>, first: bool)
    requires args != []
    ensures LeftOver(args, Expected(opts, args, first))
  {
    hide Scan;
    var cfg := Configuration(opts);
    var os := if first then Declarations(opts).letters else cfg.optstring;
    ScanInOrder(cfg, RequireOrder, os, args[1..], "");
    StrictOperands(cfg, os, args[1..], "");
  }

  lemma FollowingNumbers(ordinal: nat, n: nat)
    ensures forall k :: k in Following(ordinal, n) <==> ordinal < k <= ordinal + n
  {
    forall k | ordinal < k <= ordinal + n ensures k in Following(ordinal, n) {
      assert Following(ordinal, n)[k - ordinal - 1] == k;
    }
  }

  /** The order numbers of an option, all of its occurrences or of what was left. */
  lemma OrdersOf(opts: seq<CommandOption>, out: Outcome, o: CommandOption)
    ensures var trailing := TrailingOf(opts) == Some(o);
            var rest := if trailing then out.operands else [];
            var order := Orders(opts, out.events, o) + Following(|out.events|, |rest|);
            && Rising(order)
            && (forall k :: k in order <==>
                  if trailing then |out.events| < k <= |out.events| + |rest|
                  else 1 <= k <= |out.events| && Occurs(opts, out.events[k - 1], o))
            && (trailing ==> Orders(opts, out.events, o) == [] && Values(opts, out.events, o) == [])
  {
    hide Occurs, Orders, Values;
    var rest := if TrailingOf(opts) == Some(o) then out.operands else [];
    OrdersAreOccurrences(opts, out.events, o);
    FollowingNumbers(|out.events|, |rest|);
    TrailingIn(opts);
    if TrailingOf(opts) == Some(o) {
      TrailingNeverOccurs(opts, out.events, o);
      assert [] + Following(|out.events|, |rest|) == Following(|out.events|, |rest|);
    } else {
      assert Orders(opts, out.events, o) + [] == Orders(opts, out.events, o);
    }
  }

  ghost predicate NothingBefore(was: map<CommandOption, Collected>, opts: seq<CommandOption>) {
    forall o <- opts :: o in was && was[o] == Collected(0, [], [])
  }

  /** The record of one fresh option. */
  lemma FreshRecord(was: map<CommandOption, Collected>, opts: seq<CommandOption>, out: Outcome, o: CommandOption)
    requires NothingBefore(was, opts) && FiledWithRest(was, opts, out, TrailingOf(opts)) && o in opts
    ensures var rest := if TrailingOf(opts) == Some(o) then out.operands else [];
            o.order == Orders(opts, out.events, o) + Following(|out.events|, |rest|)
    ensures o.count == |o.order|
    ensures TrailingOf(opts) == Some(o) ==> o.value == out.operands && o.count == |o.value|
    ensures TrailingOf(opts) != Some(o) ==> |o.value| == if o.hasArgument then o.count else 0
  {
    OrdersOf(opts, out, o);
    ValuePerOccurrence(opts, out.events, o);
    hide Orders, Values, Occurs;
    assert forall s: seq<nat> :: [] + s == s;
    assert forall s: seq<string> :: [] + s == s && s + [] == s;
  }

  lemma FreshSnapshot(opts: seq<CommandOption>)
    ensures AllFresh(opts) ==> NothingBefore(Snapshot(opts), opts)
  {
  }

  lemma TrailingIs(opts: seq<CommandOption>)
    ensures TrailingOf(opts) == Declarations(opts).trailing
  {
  }

  lemma FreshTally(was: map<CommandOption, Collected>, opts: seq<CommandOption>, args: seq<string>, first: bool)
    requires args != [] && FiledWithRest(was, opts, Expected(opts, args, first), TrailingOf(opts))
    ensures NothingBefore(was, opts) ==> Tallied(opts, TrailingOf(opts), args, Expected(opts, args, first))
  {
    hide Orders, Values, Occurs, Expected, LeftOver, FiledWithRest, Declarations, TrailingOf;
    var out := Expected(opts, args, first);
    ExpectedLeavesRest(opts, args, first);
    if NothingBefore(was, opts) {
      forall o | o in opts
        ensures o.count == |o.order| && Rising(o.order)
        ensures TrailingOf(opts) == Some(o) ==> o.value == out.operands && o.count == |o.value|
        ensures TrailingOf(opts) != Some(o) ==> |o.value| == if o.hasArgument then o.count else 0
      {
        FreshRecord(was, opts, out, o);
        OrdersOf(opts, out, o);
      }
      forall o, p, k | o in opts && p in opts && k in o.order && k in p.order ensures o == p {
        SharedNumber(was, opts, out, o, p, k);
      }
    }
  }

  lemma SharedNumber(was: map<CommandOption, Collected>, opts: seq<CommandOption>, out: Outcome, o: CommandOption,
                     p: CommandOption, k: nat)
    requires NothingBefore(was, opts) && FiledWithRest(was, opts, out, TrailingOf(opts)) && o in opts && p in opts
    requires k in o.order && k in p.order
    ensures o == p
  {
    FreshRecord(was, opts, out, o);
    FreshRecord(was, opts, out, p);
    OrdersOf(opts, out, o);
    OrdersOf(opts, out, p);
    hide Orders, FiledWithRest, Following;
  }

  /** A name under which an option can be called. */
  predicate Bears(o: CommandOption, name: string) {
    && o.optType == Standard
    && ((o.shortOpt != NO_LETTER && name == [o.shortOpt]) || (o.longOpt != "" && name == o.longOpt))
  }

  /** Letters and long names share one name space, in which the last declaration wins. */
  lemma {:induction false} LastDeclarationWins(opts: seq<CommandOption>, i: nat, name: string) returns (last: nat)
    requires i < |opts| && Bears(opts[i], name)
    ensures i <= last < |opts| && Bears(opts[last], name)
    ensures forall j :: last < j < |opts| ==> !Bears(opts[j], name)
    ensures name in Com(opts) && Com(opts)[name] == opts[last]
  {
    var rest, n := opts[..|opts| - 1], |opts| - 1;
    if Bears(opts[n], name) {
      last := n;
    } else {
      last := LastDeclarationWins(rest, i, name);
      assert forall j :: last < j < n ==> rest[j] == opts[j];
    }
  }

  /** Why `co` cannot stand beside `o`, if it cannot. */
  function Clash(o: CommandOption, co: CommandOption): Option<ClashError> {
    if co.shortOpt != NO_LETTER && o.shortOpt == co.shortOpt then Some(ShortInUse(co.shortOpt))
    else if co.longOpt != "" && o.longOpt == co.longOpt then Some(LongInUse(co.longOpt))
    else if o.optType == Trailing && co.optType == Trailing then Some(MultipleTrailing)
    else None
  }

  /** No two options share a letter or a long name, and at most one is trailing. */
  ghost predicate Distinct(opts: seq<CommandOption>) {
    forall i, j :: 0 <= i < j < |opts| ==>
      && (opts[i].shortOpt == opts[j].shortOpt ==> opts[i].shortOpt == NO_LETTER)
      && (opts[i].longOpt == opts[j].longOpt ==> opts[i].longOpt == "")
      && !(opts[i].optType == Trailing && opts[j].optType == Trailing)
  }

  lemma DistinctAfter(opts: seq<CommandOption>, co: CommandOption)
    requires Distinct(opts)
    ensures Distinct(opts + [co]) <==> forall i :: 0 <= i < |opts| ==> Clash(opts[i], co) == None
  {
    var more := opts + [co];
    if Distinct(more) {
      forall i | 0 <= i < |opts| ensures Clash(opts[i], co) == None {
        assert more[i] == opts[i] && more[|opts|] == co;
      }
    }
  }

  /**
   Among options that do not clash, a letter reaches its option unless an option declared later
   has that one letter for a long name; and likewise a long name of one letter.
   */
  lemma NamesReachOptions(opts: seq<CommandOption>, i: nat, name: string)
    requires Distinct(opts) && i < |opts| && Bears(opts[i], name)
    ensures name in Com(opts)
    ensures Com(opts)[name] == opts[i] <==> forall j :: i < j < |opts| ==> !Bears(opts[j], name)
    ensures forall j :: i < j < |opts| && Bears(opts[j], name) ==>
              |name| == 1 && (opts[i].longOpt == [opts[j].shortOpt] || opts[j].longOpt == [opts[i].shortOpt])
  {
    var last := LastDeclarationWins(opts, i, name);
    if i < last {
      assert opts[i].longOpt != "" ==> opts[i].longOpt != opts[last].longOpt;
    }
    forall j | i < j < |opts| && Bears(opts[j], name)
      ensures |name| == 1 && (opts[i].longOpt == [opts[j].shortOpt] || opts[j].longOpt == [opts[i].shortOpt])
    {
      assert opts[i].longOpt != "" ==> opts[i].longOpt != opts[j].longOpt;
    }
  }

  // ----- every option getopt reports is known

  predicate Known(opts: seq<CommandOption>, e: Event) {
    IsError(e) || NameOf(Table(opts), e) in Com(opts) || e.code == '+' as int
  }

  lemma {:induction false} DeclaredNames(opts: seq<CommandOption>)
    ensures forall c <- Declarations(opts).letters :: c == ':' || (c != NO_LETTER && [c] in Com(opts))
    ensures forall i :: 0 <= i < |Table(opts)| ==>
              Table(opts)[i].name in Com(opts) && Table(opts)[i].flag == None && Table(opts)[i].val == 0
  {
    if opts != [] {
      var rest := opts[..|opts| - 1];
      DeclaredNames(rest);
      forall i | 0 <= i < |Table(opts)|
        ensures Table(opts)[i].name in Com(opts) && Table(opts)[i].flag == None && Table(opts)[i].val == 0
      {
        assert i < |Table(rest)| ==> Table(opts)[i] == Table(rest)[i];
      }
    }
  }

  lemma ShortKnown(opts: seq<CommandOption>, os: string, next: string, arg: Option<string>)
    requires next != "" && (os == Declarations(opts).letters || os == "+" + Declarations(opts).letters)
    ensures Known(opts, DecodeShort(os, next, arg).event)
  {
    DeclaredNames(opts);
    hide Declarations;
    var c := next[0];
    assert c in os ==> c == '+' || c in Declarations(opts).letters;
    assert LetterOf(c as int) == c;
  }

  lemma LongKnown(opts: seq<CommandOption>, os: string, next: string, arg: Option<string>)
    ensures var d := DecodeLong(os, Table(opts), false, next, arg);
            d.Some? ==> Known(opts, d.value.event)
  {
    DeclaredNames(opts);
    hide Declarations, LongMatch;
  }

  lemma DecodeKnown(opts: seq<CommandOption>, os: string, elem: string, next: string, arg: Option<string>)
    requires !NonOption(elem) && next != ""
    requires os == Declarations(opts).letters || os == "+" + Declarations(opts).letters
    ensures Known(opts, Decode(os, Configuration(opts), elem, next, arg).event)
  {
    ShortKnown(opts, os, next, arg);
    LongKnown(opts, os, next, arg);
    hide DecodeShort, DecodeLong, Declarations;
  }

  /** Whatever is reported for a command line is an error, an option that was declared, or `+`. */
  lemma {:induction false} ReportsKnown(opts: seq<CommandOption>, os: string, ahead: seq<string>, next: string)
    requires next != "" ==> ahead != [] && !NonOption(ahead[0])
    requires os == Declarations(opts).letters || os == "+" + Declarations(opts).letters
    ensures var o := Scan(Configuration(opts), RequireOrder, os, ahead, next);
            forall i :: 0 <= i < |o.events| ==> Known(opts, o.events[i])
    decreases |ahead|, if next != "" then |next| else if ahead == [] then 0 else |ahead[0]| + 1
  {
    hide Decode, Known, Declarations;
    var cfg := Configuration(opts);
    if next != "" {
      var arg := if |ahead| > 1 then Some(ahead[1]) else None;
      var d := Decode(os, cfg, ahead[0], next, arg);
      ScanCall(cfg, RequireOrder, os, ahead, next);
      DecodeKnown(opts, os, ahead[0], next, arg);
      ReportsKnown(opts, cfg.optstring, ahead[d.used..], d.next);
    } else if ahead != [] && ahead[0] != "--" && !NonOption(ahead[0]) {
      ScanElement(cfg, RequireOrder, os, ahead);
      ReportsKnown(opts, os, ahead, Body(cfg, ahead[0]));
    }
  }

  /**
   If a later option has a letter for its long name, it takes the letter over: a use of the letter is filed
   under the later one if they agree on arguments, and is an error if not.
   */
  lemma LetterTakenOver(opts: seq<CommandOption>, i: nat, j: nat, value: Option<string>)
    requires Distinct(opts) && i < j < |opts| && opts[i].optType == Standard == opts[j].optType
    requires opts[i].shortOpt !in "\0?:" && opts[j].longOpt == [opts[i].shortOpt]
    ensures var name, e := [opts[i].shortOpt], Event(opts[i].shortOpt as int, value, None, None, None);
            && (Occurs(opts, e, opts[j]) <==> opts[j].hasArgument == value.Some?)
            && FaultOf(opts, e, 0)
               == if opts[j].hasArgument && value == None then [LacksArgument(name)]
                  else if !opts[j].hasArgument && value.Some? then [HasArgument(name)]
                  else []
  {
    var name := [opts[i].shortOpt];
    var last := LastDeclarationWins(opts, j, name);
    hide Declarations, Table;
    assert last == j;
  }

  /** Only a mark can be reported that is no option. */
  lemma MarkIsUnknown(opts: seq<CommandOption>, e: Event)
    requires e.code == '+' as int && "+" !in Com(opts)
    ensures FaultOf(opts, e, 0) == [UnknownOption]
  {
    hide Declarations, Table;
  }
}
