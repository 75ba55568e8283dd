/**
 What a parse is for: whatever a user writes with the declared options comes to these options, and to
 nobody else.
 */
module CommandOptionUses {
  import opened Prelude
  import opened Getopt
  import opened GetoptDeclarations
  import opened CommandOptions
  import Meaning = GetoptMeaning

  /**
   What a user writes: letters in one element, the last one with its value if it takes one; a long name; or an
   error: an unknown letter or name, or a value for an option that takes none.
   */
  datatype Use =
    | Cluster(flags: seq<nat>, i: nat, joined: bool, value: string)
    | Named(i: nat, joined: bool, value: string)
    | BadLetter(c: char)
    | BadName(name: string)
    | BadValue(i: nat, value: string)

  /** What comes last: nothing, operands with or without `--`, or an option without its value. */
  datatype Ending =
    | Over
    | Dashes(rest: seq<string>)
    | Operands(rest: seq<string>)
    | LackingLetter(i: nat)
    | LackingName(i: nat)

  /** What is to be filed: a use of option i, or an error that names a letter or nothing. */
  datatype Call = Call(i: nat, byName: bool, value: Option<string>) | Bad(letter: Option<char>)

  // ----- what can be written

  /** No letter would upset the option string. */
  predicate PlainLetters(opts: seq<CommandOption>) {
    forall o <- opts :: o.optType == Standard ==> o.shortOpt != ':' && o.shortOpt != '+'
  }

  /** The option is reached by its letter. */
  ghost predicate HasLetter(opts: seq<CommandOption>, i: nat) {
    && i < |opts| && opts[i].optType == Standard && opts[i].shortOpt != '\0' && opts[i].shortOpt !in "-?"
    && forall j | i < j < |opts| && opts[j].optType == Standard :: opts[j].longOpt != [opts[i].shortOpt]
  }

  /** The option is reached by its long name. */
  ghost predicate HasName(opts: seq<CommandOption>, i: nat) {
    && i < |opts| && opts[i].optType == Standard && opts[i].longOpt != "" && '=' !in opts[i].longOpt
    && forall j | i < j < |opts| && opts[j].optType == Standard && opts[j].shortOpt != '\0' ::
         opts[i].longOpt != [opts[j].shortOpt]
  }

  ghost predicate CanUse(opts: seq<CommandOption>, u: Use) {
    match u
    case Cluster(flags, i, joined, value) =>
      && (forall k :: 0 <= k < |flags| ==> HasLetter(opts, flags[k]) && !opts[flags[k]].hasArgument)
      && HasLetter(opts, i) && (opts[i].hasArgument && joined ==> value != "")
    case Named(i, _, _) => HasName(opts, i)
    case BadLetter(c) =>
      c !in "+-\0" && forall o <- opts :: o.optType == Standard ==> o.shortOpt != c
    case BadName(name) =>
      name != "" && '=' !in name && forall o <- opts :: o.optType == Standard ==> !(name <= o.longOpt)
    case BadValue(i, _) => HasName(opts, i) && !opts[i].hasArgument
  }

  ghost predicate CanEnd(opts: seq<CommandOption>, end: Ending) {
    match end
    case Operands(rest) => rest != [] ==> |rest[0]| < 2 || rest[0][0] != '-'
    case LackingLetter(i) => HasLetter(opts, i) && opts[i].hasArgument
    case LackingName(i) => HasName(opts, i) && opts[i].hasArgument
    case _ => true
  }

  // ----- how it is written

  predicate Indices(opts: seq<CommandOption>, flags: seq<nat>) {
    forall k :: 0 <= k < |flags| ==> flags[k] < |opts|
  }

  predicate InRange(opts: seq<CommandOption>, u: Use) {
    match u
    case Cluster(flags, i, _, _) => i < |opts| && Indices(opts, flags)
    case Named(i, _, _) => i < |opts|
    case BadValue(i, _) => i < |opts|
    case _ => true
  }

  predicate EndInRange(opts: seq<CommandOption>, end: Ending) {
    match end
    case LackingLetter(i) => i < |opts|
    case LackingName(i) => i < |opts|
    case _ => true
  }

  function Letters(opts: seq<CommandOption>, flags: seq<nat>): string
    requires Indices(opts, flags)
  {
    if flags == [] then "" else [opts[flags[0]].shortOpt] + Letters(opts, flags[1..])
  }

  function Spell(opts: seq<CommandOption>, u: Use): seq<string>
    requires InRange(opts, u)
  {
    match u
    case Cluster(flags, i, joined, value) =>
      var s := "-" + Letters(opts, flags) + [opts[i].shortOpt];
      if !opts[i].hasArgument then [s] else if joined then [s + value] else [s, value]
    case Named(i, joined, value) =>
      var s := "--" + opts[i].longOpt;
      if !opts[i].hasArgument then [s] else if joined then [s + "=" + value] else [s, value]
    case BadLetter(c) => ["-" + [c]]
    case BadName(name) => ["--" + name]
    case BadValue(i, value) => ["--" + opts[i].longOpt + "=" + value]
  }

  function SpellAll(opts: seq<CommandOption>, uses: seq<Use>): seq<string>
    requires forall u <- uses :: InRange(opts, u)
  {
    if uses == [] then [] else Spell(opts, uses[0]) + SpellAll(opts, uses[1..])
  }

  function SpellEnd(opts: seq<CommandOption>, end: Ending): seq<string>
    requires EndInRange(opts, end)
  {
    match end
    case Over => []
    case Dashes(rest) => ["--"] + rest
    case Operands(rest) => rest
    case LackingLetter(i) => ["-" + [opts[i].shortOpt]]
    case LackingName(i) => ["--" + opts[i].longOpt]
  }

  // ----- what it means

  function FlagCalls(flags: seq<nat>): seq<Call> {
    if flags == [] then [] else [Call(flags[0], false, None)] + FlagCalls(flags[1..])
  }

  function CallsOf(opts: seq<CommandOption>, u: Use): seq<Call>
    requires InRange(opts, u)
  {
    match u
    case Cluster(flags, i, _, value) =>
      FlagCalls(flags) + [Call(i, false, if opts[i].hasArgument then Some(value) else None)]
    case Named(i, _, value) => [Call(i, true, if opts[i].hasArgument then Some(value) else None)]
    case BadLetter(c) => [Bad(Some(c))]
    case BadName(_) => [Bad(None)]
    case BadValue(_, _) => [Bad(None)]
  }

  function AllCalls(opts: seq<CommandOption>, uses: seq<Use>): seq<Call>
    requires forall u <- uses :: InRange(opts, u)
  {
    if uses == [] then [] else CallsOf(opts, uses[0]) + AllCalls(opts, uses[1..])
  }

  function EndCalls(opts: seq<CommandOption>, end: Ending): seq<Call>
    requires EndInRange(opts, end)
  {
    match end
    case LackingLetter(i) => [Bad(Some(opts[i].shortOpt))]
    case LackingName(_) => [Bad(None)]
    case _ => []
  }

  function RestOf(end: Ending): seq<string> {
    if end.Dashes? || end.Operands? then end.rest else []
  }

  /** The numbers of the calls of option k. */
  function OrderOf(calls: seq<Call>, k: nat): seq<nat> {
    if calls == [] then []
    else
      var last := calls[|calls| - 1];
      OrderOf(calls[..|calls| - 1], k) + if last.Call? && last.i == k then [|calls|] else []
  }

  /** The values of the calls of option k. */
  function ValuesOf(calls: seq<Call>, k: nat): seq<string> {
    if calls == [] then []
    else
      var last := calls[|calls| - 1];
      ValuesOf(calls[..|calls| - 1], k)
      + if last.Call? && last.i == k && last.value.Some? then [last.value.value] else []
  }

  function ErrorsOf(calls: seq<Call>): seq<Fault> {
    if calls == [] then []
    else
      var last := calls[|calls| - 1];
      ErrorsOf(calls[..|calls| - 1]) + if last.Bad? then [OptionError(last.letter)] else []
  }

  // ----- the declarations

  function DsOf(opts: seq<CommandOption>): seq<Declaration> {
    if opts == [] then []
    else
      var o := opts[|opts| - 1];
      DsOf(opts[..|opts| - 1])
      + if o.optType == Standard && o.shortOpt != '\0' then [DeclarationOf(o)] else []
  }

  function DeclarationOf(o: CommandOption): Declaration {
    Declaration(o.shortOpt, if o.hasArgument then Argument else Nothing)
  }

  function RowsOf(opts: seq<CommandOption>): seq<LongOption> {
    if opts == [] then []
    else
      var o := opts[|opts| - 1];
      RowsOf(opts[..|opts| - 1]) + if o.optType == Standard && o.longOpt != "" then [RowFor(o)] else []
  }

  function RowFor(o: CommandOption): LongOption {
    LongOption(o.longOpt, if o.hasArgument then 1 else 0, None, 0)
  }

  /** Where the row of option i is. */
  function RowOf(opts: seq<CommandOption>, i: nat): nat
    requires i < |opts|
  {
    |RowsOf(opts[..i])|
  }

  function InterfaceOf(opts: seq<CommandOption>): Meaning.Interface {
    Meaning.Interface("", "+", DsOf(opts), RowsOf(opts))
  }

  lemma {:induction false} WrittenAppend(ds: seq<Declaration>, es: seq<Declaration>)
    ensures Written(ds + es) == Written(ds) + Written(es)
  {
    if ds == [] {
      assert ds + es == es;
    } else {
      WrittenAppend(ds[1..], es);
      assert (ds + es)[1..] == ds[1..] + es && (ds + es)[0] == ds[0];
    }
  }

  lemma WrittenOne(d: Declaration)
    ensures Written([d]) == [d.c] + Suffix(d.takes)
  {
    assert [d][1..] == [];
  }

  lemma DsNext(opts: seq<CommandOption>, o: CommandOption)
    ensures DsOf(opts + [o])
         == DsOf(opts) + if o.optType == Standard && o.shortOpt != '\0' then [DeclarationOf(o)] else []
    ensures RowsOf(opts + [o]) == RowsOf(opts) + if o.optType == Standard && o.longOpt != "" then [RowFor(o)] else []
    ensures Declarations(opts + [o]) == Declare(Declarations(opts), o)
  {
    assert (opts + [o])[..|opts|] == opts;
  }

  lemma NothingDeclared()
    ensures DsOf([]) == [] && RowsOf([]) == [] && Written([]) == ""
    ensures Declarations([]).letters == "" && Declarations([]).table == []
  {
  }

  lemma DeclareOne(d: Declared, o: CommandOption)
    ensures Declare(d, o).letters
         == d.letters + if o.optType == Standard && o.shortOpt != '\0' then Written([DeclarationOf(o)]) else ""
    ensures Declare(d, o).table == d.table + if o.optType == Standard && o.longOpt != "" then [RowFor(o)] else []
  {
    WrittenOne(DeclarationOf(o));
    hide Written;
    assert d.letters + "" == d.letters && d.table + [] == d.table;
  }

  lemma {:induction false} DeclaredAsWritten(opts: seq<CommandOption>)
    ensures Declarations(opts).letters == Written(DsOf(opts)) && Declarations(opts).table == RowsOf(opts)
  {
    hide *;
    if opts == [] {
      NothingDeclared();
    } else {
      var rest, o := opts[..|opts| - 1], opts[|opts| - 1];
      assert opts == rest + [o];
      DeclaredAsWritten(rest);
      DsNext(rest, o);
      DeclareOne(Declarations(rest), o);
      WrittenAppend(DsOf(rest), [DeclarationOf(o)]);
      assert DsOf(rest) + [] == DsOf(rest) && Written(DsOf(rest)) + "" == Written(DsOf(rest));
    }
  }

  lemma SettingsAre(opts: seq<CommandOption>)
    ensures Meaning.Settings(InterfaceOf(opts)) == Configuration(opts)
    ensures Declarations(opts).letters == "" + Written(DsOf(opts))
  {
    DeclaredAsWritten(opts);
    hide Declarations, Written, DsOf, RowsOf;
  }

  /** Option i has this letter. */
  predicate Lettered(opts: seq<CommandOption>, i: int, c: char) {
    0 <= i < |opts| && opts[i].optType == Standard && opts[i].shortOpt == c != '\0'
  }

  lemma {:induction false} LettersAreDeclared(opts: seq<CommandOption>)
    ensures forall d <- DsOf(opts) :: exists i :: Lettered(opts, i, d.c)
    ensures forall i, c | Lettered(opts, i, c) :: DeclarationOf(opts[i]) in DsOf(opts)
  {
    if opts == [] {
      NothingDeclared();
    } else {
      hide DsOf;
      var n := |opts| - 1;
      var rest, o := opts[..n], opts[n];
      assert opts == rest + [o];
      LettersAreDeclared(rest);
      DsNext(rest, o);
      forall d | d in DsOf(opts) ensures exists i :: Lettered(opts, i, d.c) {
        if d in DsOf(rest) {
          var i :| Lettered(rest, i, d.c);
          assert Lettered(opts, i, d.c);
        } else {
          assert Lettered(opts, n, d.c);
        }
      }
      forall i, c | Lettered(opts, i, c) ensures DeclarationOf(opts[i]) in DsOf(opts) {
        assert i < n ==> Lettered(rest, i, c);
      }
    }
  }

  lemma DistinctPrefix(opts: seq<CommandOption>, n: nat)
    requires n <= |opts| && Distinct(opts)
    ensures Distinct(opts[..n])
  {
  }

  lemma OrderlyMore(mark: string, ds: seq<Declaration>, d: Declaration)
    requires Orderly(mark, ds) && d.c != ':' && d.c !in mark && forall e <- ds :: e.c != d.c
    ensures Orderly(mark, ds + [d])
  {
  }

  lemma NewLetter(opts: seq<CommandOption>, o: CommandOption, d: Declaration)
    requires Distinct(opts + [o]) && d in DsOf(opts) && o.shortOpt != '\0'
    ensures d.c != o.shortOpt
  {
    LettersAreDeclared(opts);
    var i :| Lettered(opts, i, d.c);
    assert (opts + [o])[i] == opts[i] && (opts + [o])[|opts|] == o;
  }

  lemma {:induction false} DeclarationsAreOrderly(opts: seq<CommandOption>)
    requires Distinct(opts) && PlainLetters(opts)
    ensures Orderly("", DsOf(opts)) && Orderly("+", DsOf(opts))
  {
    if opts == [] {
      NothingDeclared();
    } else {
      hide DsOf, Orderly, Distinct;
      var n := |opts| - 1;
      var rest, o := opts[..n], opts[n];
      assert opts == rest + [o];
      DistinctPrefix(opts, n);
      assert forall p <- rest :: p in opts;
      DeclarationsAreOrderly(rest);
      DsNext(rest, o);
      assert DsOf(rest) + [] == DsOf(rest);
      if o.optType == Standard && o.shortOpt != '\0' {
        forall d | d in DsOf(rest) ensures d.c != o.shortOpt {
          NewLetter(rest, o, d);
        }
        OrderlyMore("", DsOf(rest), DeclarationOf(o));
        OrderlyMore("+", DsOf(rest), DeclarationOf(o));
      }
    }
  }

  // ----- the rows

  lemma {:induction false} RowsGrow(opts: seq<CommandOption>, n: nat)
    requires n <= |opts|
    ensures RowsOf(opts[..n]) <= RowsOf(opts)
    decreases |opts|
  {
    if n < |opts| {
      RowsGrow(opts[..|opts| - 1], n);
      assert opts[..|opts| - 1][..n] == opts[..n];
    } else {
      assert opts[..n] == opts;
    }
  }

  lemma RowIs(opts: seq<CommandOption>, i: nat)
    requires i < |opts| && opts[i].optType == Standard && opts[i].longOpt != ""
    ensures var r := RowOf(opts, i);
            r < |RowsOf(opts)| && RowsOf(opts)[r] == RowFor(opts[i])
  {
    RowsGrow(opts, i + 1);
    DsNext(opts[..i], opts[i]);
    hide RowsOf;
    assert opts[..i + 1] == opts[..i] + [opts[i]];
    var r := RowOf(opts, i);
    assert RowsOf(opts[..i + 1])[r] == RowFor(opts[i]);
  }

  predicate Rowed(opts: seq<CommandOption>, i: int, name: string) {
    0 <= i < |opts| && opts[i].optType == Standard && opts[i].longOpt == name != ""
  }

  lemma {:induction false} RowsAreNames(opts: seq<CommandOption>)
    ensures forall row <- RowsOf(opts) :: exists i :: Rowed(opts, i, row.name)
  {
    if opts != [] {
      var n := |opts| - 1;
      var rest, o := opts[..n], opts[n];
      assert opts == rest + [o];
      RowsAreNames(rest);
      DsNext(rest, o);
      hide RowsOf;
      forall row | row in RowsOf(opts) ensures exists i :: Rowed(opts, i, row.name) {
        if row in RowsOf(rest) {
          var i :| Rowed(rest, i, row.name);
          assert Rowed(opts, i, row.name);
        } else {
          assert Rowed(opts, n, row.name);
        }
      }
    }
  }

  /** A long name stands in one row only. */
  lemma NameOnce(opts: seq<CommandOption>, i: nat, r: nat)
    requires Distinct(opts) && i < |opts| && opts[i].optType == Standard && opts[i].longOpt != "" && r < RowOf(opts, i)
    ensures r < |RowsOf(opts)| && RowsOf(opts)[r].name != opts[i].longOpt
  {
    RowsGrow(opts, i);
    RowsAreNames(opts[..i]);
    hide RowsOf;
    var row := RowsOf(opts[..i])[r];
    assert row in RowsOf(opts[..i]) && RowsOf(opts)[r] == row;
    var j :| Rowed(opts[..i], j, row.name);
    assert opts[j] == opts[..i][j];
  }

  lemma NameSelects(opts: seq<CommandOption>, i: nat)
    requires Distinct(opts) && HasName(opts, i)
    ensures RowOf(opts, i) < |RowsOf(opts)| && RowsOf(opts)[RowOf(opts, i)] == RowFor(opts[i])
    ensures Meaning.Selects(RowsOf(opts), opts[i].longOpt, RowOf(opts, i))
  {
    hide RowsOf, LongMatch, RowOf;
    var table, r := RowsOf(opts), RowOf(opts, i);
    RowIs(opts, i);
    LongMatchRule(table, opts[i].longOpt, false, r);
    assert table[r].name == opts[i].longOpt;
    forall j | 0 <= j < r ensures table[j].name != opts[i].longOpt {
      NameOnce(opts, i, j);
    }
  }

  lemma StrayIsUnknown(opts: seq<CommandOption>, name: string)
    requires CanUse(opts, BadName(name))
    ensures Meaning.Printable(InterfaceOf(opts), Meaning.Stray(name))
  {
    RowsAreNames(opts);
    hide RowsOf, LongMatch, DsOf;
    var table := RowsOf(opts);
    NoEquals(name);
    assert name[..|name|] == name;
    LongMatchRule(table, name, false, 0);
    forall j | 0 <= j < |table| ensures !(name <= table[j].name) {
      assert table[j] in table;
      var i :| Rowed(opts, i, table[j].name);
      assert opts[i] in opts;
    }
  }

  lemma NoEquals(name: string)
    requires '=' !in name
    ensures IndexOf(name, '=') == |name|
  {
  }

  // ----- items

  function ItemOf(opts: seq<CommandOption>, u: Use): Meaning.Item
    requires InRange(opts, u)
  {
    match u
    case Cluster(flags, i, joined, value) =>
      if opts[i].hasArgument then Meaning.Letter(Letters(opts, flags), opts[i].shortOpt, value, !joined)
      else Meaning.Flags(Letters(opts, flags) + [opts[i].shortOpt])
    case Named(i, joined, value) =>
      if opts[i].hasArgument then Meaning.LongWith(opts[i].longOpt, RowOf(opts, i), value, !joined)
      else Meaning.Long(opts[i].longOpt, RowOf(opts, i))
    case BadLetter(c) => Meaning.Flags([c])
    case BadName(name) => Meaning.Stray(name)
    case BadValue(i, value) => Meaning.Refused(opts[i].longOpt, RowOf(opts, i), value)
  }

  lemma SpelledAsPrinted(opts: seq<CommandOption>, u: Use)
    requires InRange(opts, u)
    ensures Meaning.Print(ItemOf(opts, u)) == Spell(opts, u)
  {
    hide Letters, RowOf;
    if u.Cluster? {
      var s, c := Letters(opts, u.flags), opts[u.i].shortOpt;
      assert "-" + (s + [c]) == "-" + s + [c];
    }
  }

  ghost predicate Sensible(opts: seq<CommandOption>) {
    Distinct(opts) && PlainLetters(opts)
  }

  /** A letter that reaches its option is declared, and is no mark. */
  lemma LetterDeclared(opts: seq<CommandOption>, i: nat)
    requires Sensible(opts) && HasLetter(opts, i)
    ensures var p, c := InterfaceOf(opts), opts[i].shortOpt;
            && Declaration(c, if opts[i].hasArgument then Argument else Nothing) in p.ds
            && Meaning.Markless(p, [c]) && c != '-'
  {
    LettersAreDeclared(opts);
    assert Lettered(opts, i, opts[i].shortOpt) && opts[i] in opts;
  }

  lemma {:induction false} FlagLetters(opts: seq<CommandOption>, flags: seq<nat>)
    requires Sensible(opts)
    requires forall k :: 0 <= k < |flags| ==> HasLetter(opts, flags[k]) && !opts[flags[k]].hasArgument
    ensures Indices(opts, flags) && Meaning.AllFlags(InterfaceOf(opts), Letters(opts, flags))
    ensures flags != [] ==> Letters(opts, flags)[0] != '-'
  {
    hide DsOf, RowsOf, Distinct, HasLetter;
    assert forall i: nat | HasLetter(opts, i) :: i < |opts| by {
      InRangeByLetter(opts);
    }
    if flags != [] {
      LetterDeclared(opts, flags[0]);
      FlagLetters(opts, flags[1..]);
    }
  }

  lemma InRangeByLetter(opts: seq<CommandOption>)
    ensures forall i: nat | HasLetter(opts, i) :: i < |opts|
  {
  }

  lemma ClusterPrintable(opts: seq<CommandOption>, u: Use)
    requires Sensible(opts) && u.Cluster? && CanUse(opts, u)
    ensures InRange(opts, u) && Meaning.Printable(InterfaceOf(opts), ItemOf(opts, u))
  {
    FlagLetters(opts, u.flags);
    LetterDeclared(opts, u.i);
    hide DsOf, RowsOf, Distinct, Letters, HasLetter, PlainLetters;
    InRangeByLetter(opts);
    var s, c := Letters(opts, u.flags), opts[u.i].shortOpt;
    assert c in [c];
    NoLetters(opts);
    assert (s + [c])[0] == if u.flags == [] then c else s[0];
    assert forall x <- s + [c] :: x in s || x == c;
  }

  lemma NoLetters(opts: seq<CommandOption>)
    ensures Letters(opts, []) == ""
    ensures forall flags: seq<nat> | Indices(opts, flags) && flags != [] :: Letters(opts, flags) != ""
  {
  }

  lemma LetterUnknown(opts: seq<CommandOption>, c: char)
    requires CanUse(opts, BadLetter(c))
    ensures Unknown(DsOf(opts), c)
  {
    LettersAreDeclared(opts);
    hide DsOf;
    forall d | d in DsOf(opts) ensures d.c != c {
      var i :| Lettered(opts, i, d.c);
      assert opts[i] in opts;
    }
  }

  lemma OtherPrintable(opts: seq<CommandOption>, u: Use)
    requires Sensible(opts) && !u.Cluster? && CanUse(opts, u)
    ensures InRange(opts, u) && Meaning.Printable(InterfaceOf(opts), ItemOf(opts, u))
  {
    match u
    case Named(i, _, _) =>
      NameSelects(opts, i);
      hide RowsOf, RowOf, DsOf, Distinct;
    case BadValue(i, _) =>
      NameSelects(opts, i);
      hide RowsOf, RowOf, DsOf, Distinct;
    case BadName(name) => StrayIsUnknown(opts, name);
    case BadLetter(c) =>
      LetterUnknown(opts, c);
      hide RowsOf, RowOf, DsOf, Distinct;
  }

  lemma UsePrintable(opts: seq<CommandOption>, u: Use)
    requires Sensible(opts) && CanUse(opts, u)
    ensures InRange(opts, u) && Meaning.Printable(InterfaceOf(opts), ItemOf(opts, u))
  {
    hide *;
    if u.Cluster? {
      ClusterPrintable(opts, u);
    } else {
      OtherPrintable(opts, u);
    }
  }

  // ----- events

  /** What getopt reports for a call. */
  function EventOf(opts: seq<CommandOption>, call: Call): Event
    requires call.Call? ==> call.i < |opts|
  {
    match call
    case Call(i, false, value) => Event(opts[i].shortOpt as int, value, None, None, None)
    case Call(i, true, value) => Event(0, value, None, Some(RowOf(opts, i)), None)
    case Bad(letter) => Event('?' as int, None, Some(if letter.Some? then letter.value as int else 0), None, None)
  }

  predicate CallsInRange(opts: seq<CommandOption>, calls: seq<Call>) {
    forall k :: 0 <= k < |calls| && calls[k].Call? ==> calls[k].i < |opts|
  }

  function EventsOf(opts: seq<CommandOption>, calls: seq<Call>): (events: seq<Event>)
    requires CallsInRange(opts, calls)
    ensures |events| == |calls| && forall k | 0 <= k < |calls| :: events[k] == EventOf(opts, calls[k])
  {
    seq(|calls|, k requires 0 <= k < |calls| => EventOf(opts, calls[k]))
  }

  lemma EventsAppend(opts: seq<CommandOption>, a: seq<Call>, b: seq<Call>)
    requires CallsInRange(opts, a) && CallsInRange(opts, b)
    ensures CallsInRange(opts, a + b) && EventsOf(opts, a + b) == EventsOf(opts, a) + EventsOf(opts, b)
  {
  }

  lemma FlagDeclared(opts: seq<CommandOption>, i: nat)
    requires Sensible(opts) && HasLetter(opts, i) && !opts[i].hasArgument
    ensures Meaning.FlagEvent(InterfaceOf(opts), opts[i].shortOpt) == EventOf(opts, Call(i, false, None))
  {
    LetterDeclared(opts, i);
    hide DsOf, RowsOf;
    assert !Unknown(DsOf(opts), opts[i].shortOpt);
  }

  lemma {:induction false} FlagEventsAre(opts: seq<CommandOption>, flags: seq<nat>)
    requires Sensible(opts)
    requires forall k :: 0 <= k < |flags| ==> HasLetter(opts, flags[k]) && !opts[flags[k]].hasArgument
    ensures Indices(opts, flags) && CallsInRange(opts, FlagCalls(flags))
    ensures Meaning.FlagEvents(InterfaceOf(opts), Letters(opts, flags)) == EventsOf(opts, FlagCalls(flags))
  {
    hide *;
    FlagLetters(opts, flags);
    LettersStep(opts, flags);
    if flags != [] {
      var i, rest := flags[0], flags[1..];
      FlagEventsAre(opts, rest);
      FlagDeclared(opts, i);
      Meaning.FlagsCons(InterfaceOf(opts), Letters(opts, flags));
      EventsAppend(opts, [Call(i, false, None)], FlagCalls(rest));
      OneEvent(opts, i);
    }
  }

  lemma OneEvent(opts: seq<CommandOption>, i: nat)
    requires i < |opts|
    ensures var call := Call(i, false, None);
            CallsInRange(opts, [call]) && EventsOf(opts, [call]) == [EventOf(opts, call)]
  {
  }

  lemma LettersStep(opts: seq<CommandOption>, flags: seq<nat>)
    requires Indices(opts, flags)
    ensures flags == [] ==>
              && Letters(opts, flags) == "" && FlagCalls(flags) == [] && CallsInRange(opts, [])
              && Meaning.FlagEvents(InterfaceOf(opts), "") == [] == EventsOf(opts, [])
    ensures flags != [] ==>
              && flags[0] < |opts| && Indices(opts, flags[1..])
              && Letters(opts, flags) != "" && Letters(opts, flags)[0] == opts[flags[0]].shortOpt
              && Letters(opts, flags)[1..] == Letters(opts, flags[1..])
              && FlagCalls(flags) == [Call(flags[0], false, None)] + FlagCalls(flags[1..])
  {
    hide DsOf, RowsOf;
  }

  lemma FlagsEnd(p: Meaning.Interface, s: string, c: char)
    ensures Meaning.FlagEvents(p, s + [c]) == Meaning.FlagEvents(p, s) + [Meaning.FlagEvent(p, c)]
  {
  }

  lemma ClusterEvents(opts: seq<CommandOption>, u: Use)
    requires Sensible(opts) && u.Cluster? && CanUse(opts, u) && InRange(opts, u)
    ensures Meaning.HasRow(InterfaceOf(opts), ItemOf(opts, u)) && CallsInRange(opts, CallsOf(opts, u))
    ensures Meaning.Events(InterfaceOf(opts), ItemOf(opts, u)) == EventsOf(opts, CallsOf(opts, u))
  {
    FlagEventsAre(opts, u.flags);
    var last := Call(u.i, false, if opts[u.i].hasArgument then Some(u.value) else None);
    EventsAppend(opts, FlagCalls(u.flags), [last]);
    if !opts[u.i].hasArgument {
      FlagDeclared(opts, u.i);
      FlagsEnd(InterfaceOf(opts), Letters(opts, u.flags), opts[u.i].shortOpt);
    }
    hide DsOf, RowsOf, Distinct, Letters, HasLetter, PlainLetters, Meaning.FlagEvents, FlagCalls, Meaning.FlagEvent;
    assert EventsOf(opts, [last]) == [EventOf(opts, last)];
  }

  lemma OtherEvents(opts: seq<CommandOption>, u: Use)
    requires Sensible(opts) && !u.Cluster? && CanUse(opts, u) && InRange(opts, u)
    ensures Meaning.HasRow(InterfaceOf(opts), ItemOf(opts, u)) && CallsInRange(opts, CallsOf(opts, u))
    ensures Meaning.Events(InterfaceOf(opts), ItemOf(opts, u)) == EventsOf(opts, CallsOf(opts, u))
  {
    match u
    case Named(i, _, _) =>
      NameSelects(opts, i);
      hide RowsOf, RowOf, DsOf, Distinct;
    case BadValue(i, _) =>
      NameSelects(opts, i);
      hide RowsOf, RowOf, DsOf, Distinct;
    case BadName(name) =>
      hide RowsOf, RowOf, DsOf, Distinct;
    case BadLetter(c) =>
      LetterUnknown(opts, c);
      hide RowsOf, RowOf, DsOf, Distinct;
  }

  lemma UseEvents(opts: seq<CommandOption>, u: Use)
    requires Sensible(opts) && CanUse(opts, u) && InRange(opts, u)
    ensures Meaning.HasRow(InterfaceOf(opts), ItemOf(opts, u)) && CallsInRange(opts, CallsOf(opts, u))
    ensures Meaning.Events(InterfaceOf(opts), ItemOf(opts, u)) == EventsOf(opts, CallsOf(opts, u))
  {
    hide *;
    if u.Cluster? {
      ClusterEvents(opts, u);
    } else {
      OtherEvents(opts, u);
    }
  }

  function ItemsOf(opts: seq<CommandOption>, uses: seq<Use>): seq<Meaning.Item>
    requires forall u <- uses :: InRange(opts, u)
  {
    if uses == [] then [] else [ItemOf(opts, uses[0])] + ItemsOf(opts, uses[1..])
  }

  function EndOf(opts: seq<CommandOption>, end: Ending): Meaning.End
    requires EndInRange(opts, end)
  {
    match end
    case Over => Meaning.Over
    case Dashes(rest) => Meaning.Dashes(rest)
    case Operands(rest) => Meaning.Operands(rest)
    case LackingLetter(i) => Meaning.Lacking("", opts[i].shortOpt)
    case LackingName(i) => Meaning.LackingName(opts[i].longOpt, RowOf(opts, i))
  }

  lemma EndCloses(opts: seq<CommandOption>, end: Ending)
    requires Sensible(opts) && CanEnd(opts, end)
    ensures EndInRange(opts, end) && Meaning.Closes(InterfaceOf(opts), RequireOrder, EndOf(opts, end))
    ensures Meaning.PrintEnd(EndOf(opts, end)) == SpellEnd(opts, end)
  {
    match end
    case LackingLetter(i) =>
      LetterDeclared(opts, i);
      hide RowsOf, RowOf, DsOf, Distinct;
      var letter := [opts[i].shortOpt];
      assert "" + letter == letter && "-" + "" + letter == "-" + letter;
    case LackingName(i) =>
      NameSelects(opts, i);
      hide RowsOf, RowOf, DsOf, Distinct;
    case _ =>
  }

  lemma EndEvents(opts: seq<CommandOption>, mark: string, end: Ending)
    requires Sensible(opts) && CanEnd(opts, end) && EndInRange(opts, end) && mark in {"", "+"}
    ensures var p, e, calls := InterfaceOf(opts), EndOf(opts, end), EndCalls(opts, end);
            && (e.LackingName? ==> e.row < |p.table|) && CallsInRange(opts, calls)
            && var o := Meaning.IntendedEnd(p, mark, e);
               o.events == EventsOf(opts, calls) && o.operands == RestOf(end) && o.ended == end.Dashes?
  {
    match end
    case LackingLetter(i) =>
      hide RowsOf, RowOf, DsOf, Distinct;
      assert Meaning.FlagEvents(InterfaceOf(opts), "") == [];
    case LackingName(i) =>
      NameSelects(opts, i);
      hide RowsOf, RowOf, DsOf, Distinct;
    case _ =>
  }

  /** Uses are printed as items that the scan understands, and none of them is a word. */
  lemma {:induction false} UsesArePrintable(opts: seq<CommandOption>, uses: seq<Use>)
    requires Sensible(opts) && forall u <- uses :: CanUse(opts, u)
    ensures forall u <- uses :: InRange(opts, u)
    ensures var p, items := InterfaceOf(opts), ItemsOf(opts, uses);
            && Meaning.AllRows(p, items) && Meaning.AllPrintable(p, items)
            && Meaning.PrintAll(items) == SpellAll(opts, uses)
            && CallsInRange(opts, AllCalls(opts, uses))
  {
    hide DsOf, RowsOf, Distinct, CanUse, ItemOf, Meaning.Printable, Spell, CallsOf, Sensible, Meaning.HasRow;
    forall u | u in uses ensures InRange(opts, u) {
      UsePrintable(opts, u);
    }
    if uses != [] {
      UsePrintable(opts, uses[0]);
      UseEvents(opts, uses[0]);
      SpelledAsPrinted(opts, uses[0]);
      UsesArePrintable(opts, uses[1..]);
      assert ItemsOf(opts, uses)[1..] == ItemsOf(opts, uses[1..]);
      EventsAppend(opts, CallsOf(opts, uses[0]), AllCalls(opts, uses[1..]));
    }
  }

  lemma {:induction false} IntendedOfUses(opts: seq<CommandOption>, mark: string, uses: seq<Use>, end: Ending)
    requires Sensible(opts) && (forall u <- uses :: CanUse(opts, u)) && CanEnd(opts, end) && mark in {"", "+"}
    ensures (forall u <- uses :: InRange(opts, u)) && EndInRange(opts, end)
    ensures var p, items, e := InterfaceOf(opts), ItemsOf(opts, uses), EndOf(opts, end);
            && Meaning.AllRows(p, items) && (e.LackingName? ==> e.row < |p.table|)
            && CallsInRange(opts, AllCalls(opts, uses) + EndCalls(opts, end))
            && var o := Meaning.Intended(p, RequireOrder, mark, items, e);
               && o.events == EventsOf(opts, AllCalls(opts, uses) + EndCalls(opts, end))
               && o.operands == RestOf(end) && o.ended == end.Dashes?
    decreases |uses|
  {
    hide DsOf, RowsOf, Distinct, CanUse, ItemOf, Meaning.Printable, Spell, CallsOf, Sensible, Meaning.HasRow, CanEnd;
    hide Meaning.Events, Meaning.IntendedEnd, EndCalls, EndOf;
    UsesArePrintable(opts, uses);
    EndCloses(opts, end);
    EndEvents(opts, mark, end);
    if uses == [] {
      assert [] + EndCalls(opts, end) == EndCalls(opts, end);
    } else {
      IntendedOfUses(opts, "+", uses[1..], end);
      UseEvents(opts, uses[0]);
      assert ItemsOf(opts, uses)[1..] == ItemsOf(opts, uses[1..]);
      ItemIsNoWord(opts, uses[0]);
      var first, rest := CallsOf(opts, uses[0]), AllCalls(opts, uses[1..]) + EndCalls(opts, end);
      EventsAppend(opts, first, rest);
      Reassociate(first, AllCalls(opts, uses[1..]), EndCalls(opts, end));
    }
  }

  lemma ItemIsNoWord(opts: seq<CommandOption>, u: Use)
    requires InRange(opts, u)
    ensures !ItemOf(opts, u).Word?
  {
  }

  /** Everything that getopt reports for the command line. */
  lemma OutcomeOfUses(opts: seq<CommandOption>, args: seq<string>, first: bool, uses: seq<Use>, end: Ending)
    requires Sensible(opts) && (forall u <- uses :: CanUse(opts, u)) && CanEnd(opts, end) && args != []
    requires (forall u <- uses :: InRange(opts, u)) && EndInRange(opts, end)
    requires args[1..] == SpellAll(opts, uses) + SpellEnd(opts, end)
    ensures var calls, out := AllCalls(opts, uses) + EndCalls(opts, end), Expected(opts, args, first);
            && CallsInRange(opts, calls) && out.events == EventsOf(opts, calls)
            && out.operands == RestOf(end) && out.ended == end.Dashes?
  {
    hide *;
    var p, mark := InterfaceOf(opts), if first then "" else "+";
    UsesArePrintable(opts, uses);
    EndCloses(opts, end);
    MarksAreSound(opts, mark);
    SettingsAre(opts);
    Meaning.ScanInvertsPrint(p, RequireOrder, mark, ItemsOf(opts, uses), EndOf(opts, end));
    IntendedOfUses(opts, mark, uses, end);
    ExpectedIs(opts, args, first);
  }

  lemma MarksAreSound(opts: seq<CommandOption>, mark: string)
    requires Sensible(opts) && (mark == "" || mark == "+")
    ensures Meaning.MarkOf(InterfaceOf(opts), mark)
  {
    DeclarationsAreOrderly(opts);
    hide DsOf, RowsOf;
  }

  lemma ExpectedIs(opts: seq<CommandOption>, args: seq<string>, first: bool)
    requires args != []
    ensures var mark := if first then "" else "+";
            var p := InterfaceOf(opts);
            Expected(opts, args, first)
            == Scan(Meaning.Settings(p), RequireOrder, mark + Written(p.ds), args[1..], "")
  {
    SettingsAre(opts);
    hide Scan, Declarations, Written, DsOf, RowsOf;
  }

  // ----- filing

  /** The call is one that a use can make. */
  ghost predicate Callable(opts: seq<CommandOption>, call: Call) {
    call.Call? ==>
      && (if call.byName then HasName(opts, call.i) else HasLetter(opts, call.i))
      && opts[call.i].hasArgument == call.value.Some?
  }

  ghost predicate AllCallable(opts: seq<CommandOption>, calls: seq<Call>) {
    forall k :: 0 <= k < |calls| ==> Callable(opts, calls[k])
  }

  lemma {:induction false} FlagsCallable(opts: seq<CommandOption>, flags: seq<nat>)
    requires forall k :: 0 <= k < |flags| ==> HasLetter(opts, flags[k]) && !opts[flags[k]].hasArgument
    ensures AllCallable(opts, FlagCalls(flags))
  {
    hide HasLetter;
    if flags != [] {
      FlagsCallable(opts, flags[1..]);
    }
  }

  lemma {:induction false} UsesCallable(opts: seq<CommandOption>, uses: seq<Use>)
    requires forall u <- uses :: CanUse(opts, u) && InRange(opts, u)
    ensures AllCallable(opts, AllCalls(opts, uses))
  {
    hide HasLetter, HasName;
    if uses != [] {
      UsesCallable(opts, uses[1..]);
      var u := uses[0];
      assert CanUse(opts, u) && InRange(opts, u);
      if u.Cluster? {
        FlagsCallable(opts, u.flags);
      }
      assert AllCallable(opts, CallsOf(opts, u));
    }
  }

  /** A letter or long name that reaches its option is filed under it. */
  lemma NameIsFiled(opts: seq<CommandOption>, i: nat, byName: bool)
    requires Distinct(opts) && if byName then HasName(opts, i) else HasLetter(opts, i)
    ensures var name := if byName then opts[i].longOpt else [opts[i].shortOpt];
            name in Com(opts) && Com(opts)[name] == opts[i]
  {
    var name := if byName then opts[i].longOpt else [opts[i].shortOpt];
    var last := LastDeclarationWins(opts, i, name);
  }

  lemma NamedOnce(opts: seq<CommandOption>, i: nat, k: nat, byName: bool)
    requires Distinct(opts) && (if byName then HasName(opts, i) else HasLetter(opts, i)) && k < |opts|
    ensures opts[i] == opts[k] <==> i == k
  {
  }

  lemma CallIsFiled(opts: seq<CommandOption>, call: Call, k: nat)
    requires Distinct(opts) && PlainLetters(opts) && Callable(opts, call) && k < |opts|
    requires call.Call? ==> call.i < |opts|
    ensures Occurs(opts, EventOf(opts, call), opts[k]) <==> call.Call? && call.i == k
  {
    if call.Call? {
      var i := call.i;
      NameIsFiled(opts, i, call.byName);
      NamedOnce(opts, i, k, call.byName);
      if call.byName {
        NameSelects(opts, i);
      }
      CodesAreNoErrors(opts, i);
      DeclaredAsWritten(opts);
    }
    hide Declarations, RowsOf, RowOf, Distinct, Com;
  }

  lemma CodesAreNoErrors(opts: seq<CommandOption>, i: nat)
    requires PlainLetters(opts)
    ensures HasLetter(opts, i) ==>
              var code := opts[i].shortOpt as int;
              code != '?' as int && code != ':' as int && code != 0 && LetterOf(code) == opts[i].shortOpt
  {
    if HasLetter(opts, i) {
      assert opts[i] in opts;
    }
  }

  lemma CallFault(opts: seq<CommandOption>, call: Call, optopt: int)
    requires Distinct(opts) && PlainLetters(opts) && Callable(opts, call)
    requires call.Call? ==> call.i < |opts|
    requires call.Bad? ==> optopt == (if call.letter.Some? then call.letter.value as int else 0)
    requires call.Bad? && call.letter.Some? ==> call.letter.value != '\0'
    ensures FaultOf(opts, EventOf(opts, call), optopt) == if call.Bad? then [OptionError(call.letter)] else []
  {
    if call.Call? {
      CallIsFiled(opts, call, call.i);
      NameIsFiled(opts, call.i, call.byName);
    }
    hide Declarations, RowsOf, RowOf, Distinct, Com, Table;
  }

  predicate NoNul(calls: seq<Call>) {
    forall k :: 0 <= k < |calls| && calls[k].Bad? ==> calls[k].letter != Some('\0')
  }

  lemma {:induction false} CallsAreFiled(opts: seq<CommandOption>, calls: seq<Call>, optopt: int)
    requires Distinct(opts) && PlainLetters(opts)
    requires AllCallable(opts, calls) && CallsInRange(opts, calls) && NoNul(calls)
    ensures Faults(opts, EventsOf(opts, calls), optopt) == ErrorsOf(calls)
    ensures forall k | 0 <= k < |opts| :: Orders(opts, EventsOf(opts, calls), opts[k]) == OrderOf(calls, k)
    ensures forall k | 0 <= k < |opts| :: Values(opts, EventsOf(opts, calls), opts[k]) == ValuesOf(calls, k)
  {
    hide Occurs, FaultOf, Distinct, PlainLetters, Callable, EventOf;
    if calls != [] {
      var rest, last := calls[..|calls| - 1], calls[|calls| - 1];
      CallsAreFiled(opts, rest, optopt);
      var events, e := EventsOf(opts, rest), EventOf(opts, last);
      assert EventsOf(opts, calls) == events + [e];
      FaultsNext(opts, events, e, optopt);
      LastOptopt(opts, last);
      CallFault(opts, last, OptoptAfter(optopt, events + [e]));
      forall k | 0 <= k < |opts| ensures Occurs(opts, e, opts[k]) <==> last.Call? && last.i == k {
        CallIsFiled(opts, last, k);
      }
      FiledNext(opts, events, e);
      ValueOfCall(opts, last);
    }
  }

  lemma LastOptopt(opts: seq<CommandOption>, call: Call)
    requires call.Call? ==> call.i < |opts|
    ensures EventOf(opts, call).optopt
         == if call.Call? then None else Some(if call.letter.Some? then call.letter.value as int else 0)
  {
  }

  lemma ValueOfCall(opts: seq<CommandOption>, call: Call)
    requires call.Call? ==> call.i < |opts|
    ensures call.Call? ==> EventOf(opts, call).optarg == call.value
  {
  }

  lemma FiledNext(opts: seq<CommandOption>, events: seq<Event>, e: Event)
    ensures forall o ::
              && Orders(opts, events + [e], o)
                 == Orders(opts, events, o) + (if Occurs(opts, e, o) then [|events| + 1] else [])
              && Values(opts, events + [e], o)
                 == Values(opts, events, o) + if Occurs(opts, e, o) && e.optarg.Some? then [e.optarg.value] else []
  {
    hide Occurs;
    assert (events + [e])[..|events|] == events;
  }

  // ----- what the options obtain

  /** What option k has collected from the calls and the operands, each number as the place of its call. */
  ghost predicate Obtained(o: CommandOption, k: nat, calls: seq<Call>, operands: seq<string>)
    reads o
  {
    match o.optType
    case Trailing =>
      && o.value == operands && o.count == |operands| && |o.order| == |operands|
      && forall n | 0 <= n < |operands| :: o.order[n] == |calls| + n + 1
    case Standard => o.value == ValuesOf(calls, k) && o.order == OrderOf(calls, k) && o.count == |o.order|
    case Meta => o.value == [] && o.order == [] && o.count == 0
  }

  lemma {:induction false} TrailingFound(opts: seq<CommandOption>, k: nat)
    requires Distinct(opts) && k < |opts|
    ensures TrailingOf(opts) == Some(opts[k]) <==> opts[k].optType == Trailing
    decreases |opts|
  {
    var n := |opts| - 1;
    var rest := opts[..n];
    TrailingIn(opts);
    TrailingIn(rest);
    assert opts == rest + [opts[n]];
    hide Declarations;
    DsNext(rest, opts[n]);
    if opts[k].optType == Trailing {
      if k < n {
        DistinctPrefix(opts, n);
        TrailingFound(rest, k);
      }
    }
  }

  lemma NoTrailing(opts: seq<CommandOption>)
    requires Distinct(opts)
    ensures TrailingOf(opts) == None <==> forall o <- opts :: o.optType != Trailing
  {
    TrailingIn(opts);
    forall k | 0 <= k < |opts| ensures TrailingOf(opts) == Some(opts[k]) <==> opts[k].optType == Trailing {
      TrailingFound(opts, k);
    }
    hide TrailingOf;
  }

  lemma {:induction false} NoFaults(opts: seq<CommandOption>)
    requires Distinct(opts)
    ensures Declarations(opts).faults == []
  {
    if opts != [] {
      var n := |opts| - 1;
      var rest, o := opts[..n], opts[n];
      assert opts == rest + [o];
      DistinctPrefix(opts, n);
      NoFaults(rest);
      DsNext(rest, o);
      TrailingIn(rest);
      hide Declarations;
    }
  }

  lemma {:induction false} MetaNeverOccurs(opts: seq<CommandOption>, events: seq<Event>, o: CommandOption)
    requires o.optType != Standard
    ensures Orders(opts, events, o) == [] && Values(opts, events, o) == []
  {
    if events != [] {
      ComRange(opts);
      MetaNeverOccurs(opts, events[..|events| - 1], o);
    }
  }

  lemma OptionObtains(was: map<CommandOption, Collected>, opts: seq<CommandOption>, calls: seq<Call>, out: Outcome,
                      k: nat)
    requires Sensible(opts) && AllCallable(opts, calls) && CallsInRange(opts, calls) && NoNul(calls) && k < |opts|
    requires out.events == EventsOf(opts, calls)
    requires NothingBefore(was, opts) && FiledWithRest(was, opts, out, TrailingOf(opts))
    ensures Obtained(opts[k], k, calls, out.operands)
  {
    var o := opts[k];
    CallsAreFiled(opts, calls, 0);
    TrailingFound(opts, k);
    if o.optType != Standard {
      MetaNeverOccurs(opts, out.events, o);
    }
    hide Distinct, PlainLetters, AllCallable, CallsInRange, NoNul, TrailingOf, Orders, Values, OrderOf, ValuesOf;
    assert forall s: seq<nat> :: [] + s == s && s + [] == s;
    assert forall s: seq<string> :: [] + s == s && s + [] == s;
    assert Following(|out.events|, 0) == [];
  }

  /**
   For fresh options of any kind: after a command line that is written with their letters and names, each has
   collected its own uses and values, the trailing option the operands, and the errors are those written.
   */
  lemma UsesAreFiled(was: map<CommandOption, Collected>, opts: seq<CommandOption>, args: seq<string>, first: bool,
                     uses: seq<Use>, end: Ending, optopt: int)
    requires Sensible(opts) && (forall u <- uses :: CanUse(opts, u)) && CanEnd(opts, end) && args != []
    requires (forall u <- uses :: InRange(opts, u)) && EndInRange(opts, end)
    requires args[1..] == SpellAll(opts, uses) + SpellEnd(opts, end)
    requires NothingBefore(was, opts) && FiledWithRest(was, opts, Expected(opts, args, first), TrailingOf(opts))
    ensures var calls, out := AllCalls(opts, uses) + EndCalls(opts, end), Expected(opts, args, first);
            && (forall k | 0 <= k < |opts| :: Obtained(opts[k], k, calls, RestOf(end)))
            && Declarations(opts).faults == [] && Faults(opts, out.events, optopt) == ErrorsOf(calls)
            && out.operands == RestOf(end) && out.ended == end.Dashes?
            && (TrailingOf(opts) == None <==> forall o <- opts :: o.optType != Trailing)
  {
    hide *;
    var calls, out := AllCalls(opts, uses) + EndCalls(opts, end), Expected(opts, args, first);
    OutcomeOfUses(opts, args, first, uses, end);
    UsesCallable(opts, uses);
    AllAreCallable(opts, uses, end);
    SensibleIs(opts);
    CallsAreFiled(opts, calls, optopt);
    NoFaults(opts);
    NoTrailing(opts);
    forall k | 0 <= k < |opts| ensures Obtained(opts[k], k, calls, RestOf(end)) {
      OptionObtains(was, opts, calls, out, k);
    }
  }

  lemma SensibleIs(opts: seq<CommandOption>)
    requires Sensible(opts)
    ensures Distinct(opts) && PlainLetters(opts)
  {
  }

  lemma AllAreCallable(opts: seq<CommandOption>, uses: seq<Use>, end: Ending)
    requires (forall u <- uses :: CanUse(opts, u) && InRange(opts, u)) && CanEnd(opts, end) && EndInRange(opts, end)
    ensures AllCallable(opts, AllCalls(opts, uses) + EndCalls(opts, end))
    ensures NoNul(AllCalls(opts, uses) + EndCalls(opts, end))
  {
    UsesCallable(opts, uses);
    UsesNameNoNul(opts, uses);
    hide Callable, HasName;
  }

  lemma {:induction false} UsesNameNoNul(opts: seq<CommandOption>, uses: seq<Use>)
    requires forall u <- uses :: CanUse(opts, u) && InRange(opts, u)
    ensures NoNul(AllCalls(opts, uses))
  {
    hide HasLetter, HasName;
    if uses != [] {
      UsesNameNoNul(opts, uses[1..]);
      var u := uses[0];
      assert CanUse(opts, u);
      if u.Cluster? {
        FlagsAreCalls(u.flags);
      }
      assert NoNul(CallsOf(opts, u));
    }
  }

  lemma {:induction false} FlagsAreCalls(flags: seq<nat>)
    ensures forall k :: 0 <= k < |FlagCalls(flags)| ==> FlagCalls(flags)[k].Call?
  {
    if flags != [] {
      FlagsAreCalls(flags[1..]);
    }
  }

  /** The command line is written with these uses and ends so. */
  ghost predicate Spells(opts: seq<CommandOption>, args: seq<string>, uses: seq<Use>, end: Ending) {
    && (forall u <- uses :: CanUse(opts, u) && InRange(opts, u)) && CanEnd(opts, end) && EndInRange(opts, end)
    && args != [] && args[1..] == SpellAll(opts, uses) + SpellEnd(opts, end)
  }

  /**
   What a parse of fresh options comes to, whatever is written: each option has its own uses and values, the
   trailing one the operands; and the errors are those written, one for operands that nobody takes, and those
   of the final checks.
   */
  ghost predicate Answered(opts: seq<CommandOption>, args: seq<string>, before: seq<Fault>, after: seq<Fault>)
    reads set o | o in opts
  {
    forall uses: seq<Use>, end: Ending | Spells(opts, args, uses, end) ::
      var calls := AllCalls(opts, uses) + EndCalls(opts, end);
      && (forall k | 0 <= k < |opts| :: Obtained(opts[k], k, calls, RestOf(end)))
      && after == before + ErrorsOf(calls)
                  + (if (end.Dashes? || RestOf(end) != []) && (forall o <- opts :: o.optType != Trailing) then [Excess]
                     else [])
                  + CheckFaults(opts)
  }

  lemma ParseAnswers(was: map<CommandOption, Collected>, opts: seq<CommandOption>, args: seq<string>, first: bool,
                     optopt: int, before: seq<Fault>, after: seq<Fault>)
    requires Sensible(opts) && args != []
    requires NothingBefore(was, opts) && FiledWithRest(was, opts, Expected(opts, args, first), TrailingOf(opts))
    requires var out := Expected(opts, args, first);
             after == before + Declarations(opts).faults + Faults(opts, out.events, optopt)
                      + (if (out.ended || out.operands != []) && TrailingOf(opts) == None then [Excess] else [])
                      + CheckFaults(opts)
    ensures Answered(opts, args, before, after)
  {
    hide Sensible, NothingBefore, FiledWithRest, Expected, TrailingOf, Declarations, Faults, CheckFaults, Spells;
    hide AllCalls, EndCalls, Obtained, ErrorsOf, CanUse, CanEnd;
    forall uses: seq<Use>, end: Ending | Spells(opts, args, uses, end)
      ensures (forall u <- uses :: CanUse(opts, u) && InRange(opts, u)) && EndInRange(opts, end)
      ensures var calls, out := AllCalls(opts, uses) + EndCalls(opts, end), Expected(opts, args, first);
              && (forall k | 0 <= k < |opts| :: Obtained(opts[k], k, calls, RestOf(end)))
              && Declarations(opts).faults == [] && Faults(opts, out.events, optopt) == ErrorsOf(calls)
              && out.operands == RestOf(end) && out.ended == end.Dashes?
              && (TrailingOf(opts) == None <==> forall o <- opts :: o.optType != Trailing)
    {
      SpellsIs(opts, args, uses, end);
      UsesAreFiled(was, opts, args, first, uses, end, optopt);
    }
    assert before + [] == before;
  }

  lemma SpellsIs(opts: seq<CommandOption>, args: seq<string>, uses: seq<Use>, end: Ending)
    requires Spells(opts, args, uses, end)
    ensures (forall u <- uses :: CanUse(opts, u) && InRange(opts, u)) && CanEnd(opts, end) && EndInRange(opts, end)
    ensures args != [] && args[1..] == SpellAll(opts, uses) + SpellEnd(opts, end)
  {
  }

  /** Without the letter ';' the option string does not ask for `-W foo`. */
  lemma NoSemicolon(opts: seq<CommandOption>)
    requires forall o <- opts :: o.optType == Standard ==> o.shortOpt != ';'
    ensures NoLongW(Configuration(opts).optstring)
  {
    LettersAreDeclared(opts);
    DeclaredAsWritten(opts);
    hide DsOf, Written, Declarations, IndexOf;
    forall d | d in DsOf(opts) ensures d.c != ';' {
      var i :| Lettered(opts, i, d.c);
      assert opts[i] in opts;
    }
    WrittenLetters(DsOf(opts), ';');
    assert ';' !in Configuration(opts).optstring;
  }

  lemma {:induction false} WrittenLetters(ds: seq<Declaration>, c: char)
    requires c != ':' && forall d <- ds :: d.c != c
    ensures c !in Written(ds)
  {
    if ds != [] {
      WrittenLetters(ds[1..], c);
      assert ds[0] in ds;
    }
  }

  /** All that is known after a parse of fresh options. */
  lemma AfterParse(was: map<CommandOption, Collected>, opts: seq<CommandOption>, args: seq<string>, first: bool,
                   optopt: int, before: seq<Fault>, after: seq<Fault>)
    requires args != [] && FiledWithRest(was, opts, Expected(opts, args, first), TrailingOf(opts))
    requires var out := Expected(opts, args, first);
             after == before + Declarations(opts).faults + Faults(opts, out.events, optopt)
                      + (if (out.ended || out.operands != []) && TrailingOf(opts) == None then [Excess] else [])
                      + CheckFaults(opts)
    ensures NothingBefore(was, opts) ==> Tallied(opts, TrailingOf(opts), args, Expected(opts, args, first))
    ensures NothingBefore(was, opts) && Sensible(opts) ==> Answered(opts, args, before, after)
  {
    hide *;
    FreshTally(was, opts, args, first);
    if NothingBefore(was, opts) && Sensible(opts) {
      ParseAnswers(was, opts, args, first, optopt, before, after);
    }
  }
}
