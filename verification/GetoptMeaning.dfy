/** Two ways in which a scan preserves meaning: it inverts a printer, and its result scans the same. */
module GetoptMeaning {
  import opened Prelude
  import opened Getopt
  import opened GetoptDeclarations

  // ----- scanning inverts printing

  /**
   What a program declares: its letters, the marks before them in the option string as the first call and
   the later ones see it, and its long options.
   */
  datatype Interface = Interface(first: string, later: string, ds: seq<Declaration>, table: seq<LongOption>)

  function Settings(p: Interface): Config {
    Config(p.later + Written(p.ds), Some(p.table), false)
  }

  ghost predicate Sound(p: Interface) {
    Orderly(p.first, p.ds) && Orderly(p.later, p.ds)
  }

  /** What a user may put on a command line; a key names, or abbreviates, the long option of a row. */
  datatype Item =
    | Flags(letters: string)
    | Letter(flags: string, c: char, value: string, separate: bool)
    | Bare(flags: string, c: char)
    | Long(key: string, row: nat)
    | LongWith(key: string, row: nat, value: string, separate: bool)
    | Refused(key: string, row: nat, value: string)
    | Stray(key: string)
    | Word(text: string)

  /** How a command line may end; operands without `--` may only stand there when they end the options. */
  datatype End =
    | Over
    | Dashes(rest: seq<string>)
    | Operands(rest: seq<string>)
    | Lacking(flags: string, c: char)
    | LackingName(key: string, row: nat)

  predicate HasRow(p: Interface, item: Item) {
    (item.Long? || item.LongWith? || item.Refused?) ==> item.row < |p.table|
  }

  /** The elements that spell an item. */
  function Print(item: Item): (r: seq<string>)
    ensures r != []
  {
    match item
    case Flags(letters) => ["-" + letters]
    case Letter(flags, c, value, true) => ["-" + flags + [c], value]
    case Letter(flags, c, value, false) => ["-" + flags + [c] + value]
    case Bare(flags, c) => ["-" + flags + [c]]
    case Long(key, _) => ["--" + key]
    case LongWith(key, _, value, true) => ["--" + key, value]
    case LongWith(key, _, value, false) => ["--" + key + "=" + value]
    case Refused(key, _, value) => ["--" + key + "=" + value]
    case Stray(key) => ["--" + key]
    case Word(text) => [text]
  }

  function PrintEnd(end: End): seq<string> {
    match end
    case Over => []
    case Dashes(rest) => ["--"] + rest
    case Operands(rest) => rest
    case Lacking(flags, c) => ["-" + flags + [c]]
    case LackingName(key, _) => ["--" + key]
  }

  predicate Markless(p: Interface, letters: string) {
    forall c <- letters :: c !in p.first && c !in p.later
  }

  /** Letters that take nothing, or that nobody has declared. */
  ghost predicate AllFlags(p: Interface, letters: string) {
    Markless(p, letters) && forall c <- letters :: Declaration(c, Nothing) in p.ds || Unknown(p.ds, c)
  }

  /** The key selects the row, in full or abbreviated. */
  ghost predicate Selects(table: seq<LongOption>, key: string, row: nat) {
    key != "" && '=' !in key && LongMatch(table, key, false) == Found(row)
  }

  /** The item is spelled as the declarations want it, or is an error that can be seen from it alone. */
  ghost predicate Printable(p: Interface, item: Item) {
    HasRow(p, item) &&
    match item
    case Flags(letters) => letters != "" && letters[0] != '-' && AllFlags(p, letters)
    case Letter(flags, c, value, separate) =>
      && (flags + [c])[0] != '-' && AllFlags(p, flags) && Markless(p, [c])
      && (if separate then Declaration(c, Argument) in p.ds
          else value != "" && (Declaration(c, Argument) in p.ds || Declaration(c, Attached) in p.ds))
    case Bare(flags, c) =>
      (flags + [c])[0] != '-' && AllFlags(p, flags) && Markless(p, [c]) && Declaration(c, Attached) in p.ds
    case Long(key, row) => Selects(p.table, key, row) && p.table[row].hasArg != 1
    case LongWith(key, row, value, separate) =>
      Selects(p.table, key, row) && if separate then p.table[row].hasArg == 1 else p.table[row].hasArg != 0
    case Refused(key, row, value) => Selects(p.table, key, row) && p.table[row].hasArg == 0
    case Stray(key) => key != "" && forall row :: LongMatch(p.table, key[..IndexOf(key, '=')], false) != Found(row)
    case Word(text) => |text| < 2 || text[0] != '-'
  }

  ghost predicate Closes(p: Interface, ordering: Ordering, end: End) {
    match end
    case Operands(rest) =>
      rest != [] ==> ordering == RequireOrder && (|rest[0]| < 2 || rest[0][0] != '-')
    case Lacking(flags, c) =>
      (flags + [c])[0] != '-' && AllFlags(p, flags) && Markless(p, [c]) && Declaration(c, Argument) in p.ds
    case LackingName(key, row) => row < |p.table| && Selects(p.table, key, row) && p.table[row].hasArg == 1
    case _ => true
  }

  /** A flag is reported, and an unknown letter is an error. */
  ghost function FlagEvent(p: Interface, c: char): Event {
    if Unknown(p.ds, c) then Event('?' as int, None, Some(c as int), None, None)
    else Event(c as int, None, None, None, None)
  }

  ghost function FlagEvents(p: Interface, letters: string): seq<Event> {
    seq(|letters|, i requires 0 <= i < |letters| => FlagEvent(p, letters[i]))
  }

  /** A long option returns its value, or stores it and returns 0. */
  function RowEvent(p: Interface, row: nat, value: Option<string>): Event
    requires row < |p.table|
  {
    var o := p.table[row];
    if o.flag == None then Event(o.val, value, None, Some(row), None)
    else Event(0, value, None, Some(row), Some((o.flag.value, o.val)))
  }

  /** What the scan should report for an item. */
  ghost function Events(p: Interface, item: Item): seq<Event>
    requires HasRow(p, item)
  {
    match item
    case Flags(letters) => FlagEvents(p, letters)
    case Letter(flags, c, value, _) => FlagEvents(p, flags) + [Event(c as int, Some(value), None, None, None)]
    case Bare(flags, c) => FlagEvents(p, flags) + [Event(c as int, None, None, None, None)]
    case Long(_, row) => [RowEvent(p, row, None)]
    case LongWith(_, row, value, _) => [RowEvent(p, row, Some(value))]
    case Refused(_, row, _) => [Event('?' as int, None, Some(p.table[row].val), None, None)]
    case Stray(_) => [Event('?' as int, None, Some(0), None, None)]
    case Word(_) => []
  }

  /** The code for an argument that is not there: ':' if the option string begins with that. */
  function LackingCode(mark: string): int {
    (if mark != "" && mark[0] == ':' then ':' else '?') as int
  }

  predicate AllRows(p: Interface, items: seq<Item>) {
    forall i :: 0 <= i < |items| ==> HasRow(p, items[i])
  }

  ghost predicate AllPrintable(p: Interface, items: seq<Item>) {
    forall i :: 0 <= i < |items| ==> Printable(p, items[i])
  }

  function PrintAll(items: seq<Item>): seq<string> {
    if items == [] then [] else Print(items[0]) + PrintAll(items[1..])
  }

  /** The outcome that the end of a command line calls for; `mark` is that of the next call. */
  ghost function IntendedEnd(p: Interface, mark: string, end: End): Outcome
    requires end.LackingName? ==> end.row < |p.table|
  {
    match end
    case Over => Outcome([], [], [], false)
    case Dashes(rest) => Outcome([], ["--"], rest, true)
    case Operands(rest) => Outcome([], [], rest, false)
    case Lacking(flags, c) =>
      var code := LackingCode(if flags == "" then mark else p.later);
      Outcome(FlagEvents(p, flags) + [Event(code, None, Some(c as int), None, None)], PrintEnd(end), [], false)
    case LackingName(_, row) =>
      Outcome([Event(LackingCode(mark), None, Some(p.table[row].val), None, None)], PrintEnd(end), [], false)
  }

  /**
   The outcome that a list of items calls for: a word is passed over, or ends the options, or is
   reported, as the ordering wants it; everything else is options.
   */
  ghost function Intended(p: Interface, ordering: Ordering, mark: string, items: seq<Item>, end: End): Outcome
    requires AllRows(p, items) && (end.LackingName? ==> end.row < |p.table|)
    decreases |items|
  {
    if items == [] then IntendedEnd(p, mark, end)
    else
      var item, printed, rest := items[0], Print(items[0]), items[1..];
      if !item.Word? then
        var o := Intended(p, ordering, p.later, rest, end);
        Outcome(Events(p, item) + o.events, printed + o.options, o.operands, o.ended)
      else match ordering
        case Permute =>
          var o := Intended(p, ordering, mark, rest, end);
          o.(operands := printed + o.operands)
        case RequireOrder => Outcome([], [], PrintAll(items) + PrintEnd(end), false)
        case ReturnInOrder =>
          var o := Intended(p, ordering, p.later, rest, end);
          Outcome([Event(1, Some(item.text), None, None, None)] + o.events, printed + o.options, o.operands, o.ended)
  }

  // ----- one element

  /** A mark with which some call of the scan sees the declarations. */
  ghost predicate MarkOf(p: Interface, mark: string) {
    Sound(p) && (mark == p.first || mark == p.later)
  }

  lemma DecodeFlag(p: Interface, mark: string, c: char, text: string, arg: Option<string>)
    requires MarkOf(p, mark) && AllFlags(p, [c])
    ensures DecodeShort(mark + Written(p.ds), [c] + text, arg)
         == Decoded(FlagEvent(p, c), text, if text == "" then 1 else 0)
  {
    assert c in [c];
    LettersAsDeclared(mark, p.ds, c, text, arg);
    hide DecodeShort;
  }

  /** Inside a cluster the leading flags are reported one by one. */
  lemma {:induction false} ScanFlags(p: Interface, ordering: Ordering, mark: string, ahead: seq<string>, flags: string,
                                     next: string)
    requires MarkOf(p, mark) && AllFlags(p, flags) && next != ""
    requires ahead != [] && !NonOption(ahead[0]) && ahead[0][1] != '-'
    ensures var os := (if flags == "" then mark else p.later) + Written(p.ds);
            var o := Scan(Settings(p), ordering, os, ahead, next);
            Scan(Settings(p), ordering, mark + Written(p.ds), ahead, flags + next)
            == o.(events := FlagEvents(p, flags) + o.events)
    decreases |flags|
  {
    hide Scan, DecodeShort, FlagEvent;
    var cfg, os := Settings(p), mark + Written(p.ds);
    if flags == "" {
      var o := Scan(cfg, ordering, os, ahead, next);
      assert flags + next == next && FlagEvents(p, flags) + o.events == o.events;
    } else {
      var text, e := flags[1..] + next, FlagEvent(p, flags[0]);
      assert flags + next == [flags[0]] + text && AllFlags(p, [flags[0]]) && AllFlags(p, flags[1..]);
      DecodeFlag(p, mark, flags[0], text, if |ahead| > 1 then Some(ahead[1]) else None);
      ScanCall(cfg, ordering, os, ahead, flags + next);
      ScanFlags(p, ordering, p.later, ahead, flags[1..], next);
      var o := Scan(cfg, ordering, cfg.optstring, ahead, next);
      assert ahead[0..] == ahead && ahead[..0] + o.options == o.options;
      FlagsCons(p, flags);
      Reassociate([e], FlagEvents(p, flags[1..]), o.events);
    }
  }

  lemma FlagsCons(p: Interface, flags: string)
    requires flags != ""
    ensures FlagEvents(p, flags) == [FlagEvent(p, flags[0])] + FlagEvents(p, flags[1..])
  {
  }

  /** A cluster of flags ended by one more letter, whose decoding finishes the element. */
  lemma ScanCluster(p: Interface, ordering: Ordering, mark: string, ahead: seq<string>, flags: string, next: string,
                    d: Decoded)
    requires MarkOf(p, mark) && AllFlags(p, flags) && next != ""
    requires ahead != [] && !NonOption(ahead[0]) && ahead[0][1] != '-' && ahead[0][1..] == flags + next
    requires d == DecodeShort((if flags == "" then mark else p.later) + Written(p.ds), next,
                              if |ahead| > 1 then Some(ahead[1]) else None)
    requires d.next == "" && d.used <= |ahead|
    ensures var cfg := Settings(p);
            var o := Report(d.event, ahead[..d.used], Scan(cfg, ordering, cfg.optstring, ahead[d.used..], ""));
            Scan(cfg, ordering, mark + Written(p.ds), ahead, "") == o.(events := FlagEvents(p, flags) + o.events)
  {
    hide Scan, DecodeShort, DecodeLong, AllFlags, FlagEvents, Report;
    var cfg := Settings(p);
    ScanElement(cfg, ordering, mark + Written(p.ds), ahead);
    ScanFlags(p, ordering, mark, ahead, flags, next);
    ScanCall(cfg, ordering, (if flags == "" then mark else p.later) + Written(p.ds), ahead, next);
  }

  /** An element with a long name whose decoding is known. */
  lemma ScanLong(p: Interface, ordering: Ordering, os: string, ahead: seq<string>, d: Decoded)
    requires ahead != [] && |ahead[0]| > 2 && ahead[0][..2] == "--"
    requires var arg := if |ahead| > 1 then Some(ahead[1]) else None;
             d == match DecodeLong(os, p.table, false, ahead[0][2..], arg)
                  case Some(e) => e
                  case None => Decoded(Event('?' as int, None, Some(0), None, None), "", 1)
    requires d.next == "" && d.used <= |ahead|
    ensures var cfg := Settings(p);
            Scan(cfg, ordering, os, ahead, "")
            == Report(d.event, ahead[..d.used], Scan(cfg, ordering, cfg.optstring, ahead[d.used..], ""))
  {
    hide Scan, DecodeShort, DecodeLong, Report;
    assert ahead[0][0] == '-' && ahead[0][1] == '-';
    ScanElement(Settings(p), ordering, os, ahead);
    ScanCall(Settings(p), ordering, os, ahead, ahead[0][2..]);
  }

  /** The name before `=` is the key that is looked up. */
  lemma {:induction false} KeyOf(name: string, text: string)
    requires '=' !in name && (text == "" || text[0] == '=')
    ensures IndexOf(name + text, '=') == |name|
  {
    if name != "" {
      assert (name + text)[1..] == name[1..] + text;
      KeyOf(name[1..], text);
    } else {
      assert name + text == text;
    }
  }

  lemma DecodeSelected(p: Interface, mark: string, key: string, row: nat, text: string, arg: Option<string>)
    requires MarkOf(p, mark) && row < |p.table| && Selects(p.table, key, row) && (text == "" || text[0] == '=')
    ensures DecodeLong(mark + Written(p.ds), p.table, false, key + text, arg) ==
            var o := p.table[row];
            if text != "" then
              if o.hasArg != 0 then Some(Decoded(RowEvent(p, row, Some(text[1..])), "", 1))
              else Some(Decoded(Event('?' as int, None, Some(o.val), None, None), "", 1))
            else if o.hasArg == 1 then
              if arg.Some? then Some(Decoded(RowEvent(p, row, arg), "", 2))
              else Some(Decoded(Event(LackingCode(mark), None, Some(o.val), None, None), "", 1))
            else Some(Decoded(RowEvent(p, row, None), "", 1))
  {
    hide LongMatch, Written, Orderly;
    KeyOf(key, text);
    ColonFirst(mark, p.ds);
    var name := key + text;
    assert name[..|key|] == key;
    assert text != "" ==> name[|key| + 1..] == text[1..];
  }

  lemma ColonFirst(mark: string, ds: seq<Declaration>)
    requires Orderly(mark, ds)
    ensures var os := mark + Written(ds);
            os != "" && os[0] == ':' <==> mark != "" && mark[0] == ':'
  {
    WrittenStarts(ds);
    var os := mark + Written(ds);
    assert if mark == "" then os == Written(ds) else os[0] == mark[0];
  }

  lemma DecodeStray(os: string, table: seq<LongOption>, key: string, arg: Option<string>)
    requires forall row :: LongMatch(table, key[..IndexOf(key, '=')], false) != Found(row)
    ensures match DecodeLong(os, table, false, key, arg)
            case Some(d) => d == Decoded(Event('?' as int, None, Some(0), None, None), "", 1)
            case None => true
  {
    hide LongMatch;
  }

  /** What scanning an item and then `rest` should come to. */
  ghost predicate ScannedBack(p: Interface, ordering: Ordering, mark: string, item: Item, rest: seq<string>)
    requires HasRow(p, item)
  {
    var cfg, os, printed := Settings(p), mark + Written(p.ds), Print(item);
    Scan(cfg, ordering, os, printed + rest, "") ==
    if !item.Word? then
      var o := Scan(cfg, ordering, cfg.optstring, rest, "");
      Outcome(Events(p, item) + o.events, printed + o.options, o.operands, o.ended)
    else match ordering
      case Permute =>
        var o := Scan(cfg, ordering, os, rest, "");
        o.(operands := printed + o.operands)
      case RequireOrder => Outcome([], [], printed + rest, false)
      case ReturnInOrder =>
        var o := Scan(cfg, ordering, cfg.optstring, rest, "");
        Outcome([Event(1, Some(item.text), None, None, None)] + o.events, printed + o.options, o.operands, o.ended)
  }

  lemma ScanWord(p: Interface, ordering: Ordering, mark: string, text: string, rest: seq<string>)
    requires |text| < 2 || text[0] != '-'
    ensures ScannedBack(p, ordering, mark, Word(text), rest)
  {
    assert ([text] + rest)[0] == text && ([text] + rest)[1..] == rest && ([text] + rest)[..1] == [text];
  }

  /** A cluster whose last letter takes what it takes. */
  lemma ScanLetters(p: Interface, ordering: Ordering, mark: string, printed: seq<string>, flags: string, next: string,
                    event: Event, rest: seq<string>)
    requires MarkOf(p, mark) && AllFlags(p, flags) && next != "" && (flags + next)[0] != '-'
    requires printed != [] && printed[0] == "-" + flags + next
    requires var ahead := printed + rest;
             DecodeShort((if flags == "" then mark else p.later) + Written(p.ds), next,
                         if |ahead| > 1 then Some(ahead[1]) else None)
             == Decoded(event, "", |printed|)
    ensures var cfg := Settings(p);
            var o := Scan(cfg, ordering, cfg.optstring, rest, "");
            Scan(cfg, ordering, mark + Written(p.ds), printed + rest, "")
            == Outcome(FlagEvents(p, flags) + [event] + o.events, printed + o.options, o.operands, o.ended)
  {
    hide Scan, DecodeShort, FlagEvents, AllFlags, Written, Orderly;
    var ahead := printed + rest;
    assert ahead[0] == printed[0] && ahead[0][1..] == flags + next;
    assert ahead[|printed|..] == rest && ahead[..|printed|] == printed;
    ScanCluster(p, ordering, mark, ahead, flags, next, Decoded(event, "", |printed|));
    var cfg := Settings(p);
    Reassociate(FlagEvents(p, flags), [event], Scan(cfg, ordering, cfg.optstring, rest, "").events);
  }

  lemma ScanFlagItem(p: Interface, ordering: Ordering, mark: string, letters: string, rest: seq<string>)
    requires MarkOf(p, mark) && Printable(p, Flags(letters))
    ensures ScannedBack(p, ordering, mark, Flags(letters), rest)
  {
    hide Scan, DecodeShort, FlagEvent;
    var n := |letters| - 1;
    var flags, c := letters[..n], letters[n];
    assert letters == flags + [c] && AllFlags(p, flags) && AllFlags(p, [c]);
    assert "-" + letters == "-" + flags + [c] && [c] + "" == [c];
    assert FlagEvents(p, letters) == FlagEvents(p, flags) + [FlagEvent(p, c)];
    var ahead := ["-" + letters] + rest;
    DecodeFlag(p, if flags == "" then mark else p.later, c, "", if |ahead| > 1 then Some(ahead[1]) else None);
    ScanLetters(p, ordering, mark, ["-" + letters], flags, [c], FlagEvent(p, c), rest);
  }

  lemma ScanLetterItem(p: Interface, ordering: Ordering, mark: string, item: Item, rest: seq<string>)
    requires MarkOf(p, mark) && (item.Letter? || item.Bare?) && Printable(p, item)
    ensures ScannedBack(p, ordering, mark, item, rest)
  {
    hide Scan, DecodeShort, FlagEvents, AllFlags;
    var printed, c := Print(item), item.c;
    var text := if item.Bare? || item.separate then "" else item.value;
    var ahead := printed + rest;
    assert c in [c];
    assert item.Letter? && item.separate ==> ahead[1] == item.value;
    LettersAsDeclared(if item.flags == "" then mark else p.later, p.ds, c, text,
                      if |ahead| > 1 then Some(ahead[1]) else None);
    assert "-" + item.flags + ([c] + text) == "-" + item.flags + [c] + text;
    assert [c] + "" == [c] && "-" + item.flags + [c] + "" == "-" + item.flags + [c];
    assert (item.flags + ([c] + text))[0] == (item.flags + [c])[0];
    var value := if item.Bare? then None else Some(item.value);
    ScanLetters(p, ordering, mark, printed, item.flags, [c] + text, Event(c as int, value, None, None, None), rest);
  }

  lemma ScanNameItem(p: Interface, ordering: Ordering, mark: string, item: Item, rest: seq<string>)
    requires MarkOf(p, mark) && (item.Long? || item.LongWith? || item.Refused?) && Printable(p, item)
    ensures ScannedBack(p, ordering, mark, item, rest)
  {
    hide Scan, DecodeLong, LongMatch, Written, Orderly;
    var printed := Print(item);
    var text := if item.Refused? || (item.LongWith? && !item.separate) then "=" + item.value else "";
    var ahead := printed + rest;
    assert ahead[0][2..] == item.key + text && |ahead[0]| > 2 && ahead[0][..2] == "--";
    assert ahead[|printed|..] == rest && ahead[..|printed|] == printed;
    assert text != "" ==> text[1..] == item.value;
    DecodeSelected(p, mark, item.key, item.row, text, if |ahead| > 1 then Some(ahead[1]) else None);
    ScanLong(p, ordering, mark + Written(p.ds), ahead, Decoded(Events(p, item)[0], "", |printed|));
  }

  lemma ScanStray(p: Interface, ordering: Ordering, mark: string, key: string, rest: seq<string>)
    requires MarkOf(p, mark) && Printable(p, Stray(key))
    ensures ScannedBack(p, ordering, mark, Stray(key), rest)
  {
    hide Scan, DecodeLong, LongMatch, Written, Orderly;
    var ahead, os := ["--" + key] + rest, mark + Written(p.ds);
    assert ahead[0][2..] == key && |ahead[0]| > 2 && ahead[0][..2] == "--";
    assert ahead[1..] == rest && ahead[..1] == ["--" + key];
    DecodeStray(os, p.table, key, if |ahead| > 1 then Some(ahead[1]) else None);
    ScanLong(p, ordering, os, ahead, Decoded(Event('?' as int, None, Some(0), None, None), "", 1));
  }

  /** One printed item is scanned back, and the scan goes on behind it. */
  lemma ScanItem(p: Interface, ordering: Ordering, mark: string, item: Item, rest: seq<string>)
    requires MarkOf(p, mark) && Printable(p, item)
    ensures ScannedBack(p, ordering, mark, item, rest)
  {
    hide ScannedBack, MarkOf;
    match item
    case Word(text) => ScanWord(p, ordering, mark, text, rest);
    case Flags(letters) => ScanFlagItem(p, ordering, mark, letters, rest);
    case Letter(_, _, _, _) => ScanLetterItem(p, ordering, mark, item, rest);
    case Bare(_, _) => ScanLetterItem(p, ordering, mark, item, rest);
    case Stray(key) => ScanStray(p, ordering, mark, key, rest);
    case _ => ScanNameItem(p, ordering, mark, item, rest);
  }

  /** The end of a command line. */
  lemma ScanEnd(p: Interface, ordering: Ordering, mark: string, end: End)
    requires MarkOf(p, mark) && Closes(p, ordering, end)
    ensures Scan(Settings(p), ordering, mark + Written(p.ds), PrintEnd(end), "") == IntendedEnd(p, mark, end)
  {
    var cfg, os, printed := Settings(p), mark + Written(p.ds), PrintEnd(end);
    assert printed + [] == printed;
    match end
    case Over =>
    case Dashes(rest) =>
      assert printed[1..] == rest && printed[..1] == ["--"];
    case Operands(rest) =>
    case Lacking(flags, c) =>
      ScanNothing(cfg, ordering);
      hide Scan, DecodeShort, FlagEvents, AllFlags;
      var m := if flags == "" then mark else p.later;
      assert c in [c] && [c] + "" == [c];
      LettersAsDeclared(m, p.ds, c, "", None);
      ScanLetters(p, ordering, mark, printed, flags, [c], Event(LackingCode(m), None, Some(c as int), None, None), []);
    case LackingName(key, row) =>
      ScanNothing(cfg, ordering);
      hide Scan, DecodeLong, LongMatch, Written, Orderly;
      assert printed[0][2..] == key + "" && printed[0][..2] == "--" && key + "" == key;
      assert printed[1..] == [] && printed[..1] == printed;
      DecodeSelected(p, mark, key, row, "", None);
      ScanLong(p, ordering, os, printed,
               Decoded(Event(LackingCode(mark), None, Some(p.table[row].val), None, None), "", 1));
  }

  /**
   Scanning inverts printing.  Whatever options, errors and operands a user writes, in any order and with
   any end, names in full or abbreviated, the scan reports exactly those options with those arguments and
   those errors, and treats exactly those operands as its ordering wants it.
   */
  lemma {:induction false} ScanInvertsPrint(p: Interface, ordering: Ordering, mark: string, items: seq<Item>, end: End)
    requires MarkOf(p, mark) && AllRows(p, items) && AllPrintable(p, items) && Closes(p, ordering, end)
    ensures Scan(Settings(p), ordering, mark + Written(p.ds), PrintAll(items) + PrintEnd(end), "")
         == Intended(p, ordering, mark, items, end)
    decreases |items|
  {
    if items == [] {
      assert [] + PrintEnd(end) == PrintEnd(end);
      ScanEnd(p, ordering, mark, end);
    } else {
      hide Scan, Print, PrintEnd, Events, Printable, HasRow, Closes, Written, Orderly;
      var printed, rest := Print(items[0]), PrintAll(items[1..]);
      ScanInvertsPrint(p, ordering, mark, items[1..], end);
      ScanInvertsPrint(p, ordering, p.later, items[1..], end);
      ScanItem(p, ordering, mark, items[0], rest + PrintEnd(end));
      assert printed + rest + PrintEnd(end) == printed + (rest + PrintEnd(end));
    }
  }

  // ----- long names after one dash

  /**
   When long names may follow a single dash, an element with one is first looked up as a name, unless it is
   one letter that the option string has; if there is no such name it is a cluster of letters.
   */
  lemma LongOnlyElement(p: Interface, mark: string, key: string, text: string, arg: Option<string>)
    requires MarkOf(p, mark) && key != "" && key[0] != '-' && '=' !in key && (text == "" || text[0] == '=')
    ensures var cfg, os, name := Settings(p).(longOnly := true), mark + Written(p.ds), key + text;
            var d, found := Decode(os, cfg, "-" + name, name, arg), LongMatch(p.table, key, true);
            && Body(cfg, "-" + name) == name
            && (if |name| == 1 && key[0] in os then d == DecodeShort(os, name, arg)
                else match found
                     case NotFound =>
                       d == if key[0] in os then DecodeShort(os, name, arg)
                            else Decoded(Event('?' as int, None, Some(0), None, None), "", 1)
                     case Ambiguous => d == Decoded(Event('?' as int, None, Some(0), None, None), "", 1)
                     case Found(row) =>
                       var o := p.table[row];
                       d == if text == "" && o.hasArg == 1 then
                              if arg.Some? then Decoded(RowEvent(p, row, arg), "", 2)
                              else Decoded(Event(LackingCode(mark), None, Some(o.val), None, None), "", 1)
                            else if text == "" then Decoded(RowEvent(p, row, None), "", 1)
                            else if o.hasArg != 0 then Decoded(RowEvent(p, row, Some(text[1..])), "", 1)
                            else Decoded(Event('?' as int, None, Some(o.val), None, None), "", 1))
  {
    hide LongMatch, Written, Orderly, DecodeShort, DecodeLong;
    var name := key + text;
    DecodeKey(p, mark, key, text, arg);
    assert name[0] == key[0];
    assert ("-" + name)[1..] == name && ("-" + name)[1] == key[0];
  }

  lemma DecodeKey(p: Interface, mark: string, key: string, text: string, arg: Option<string>)
    requires MarkOf(p, mark) && '=' !in key && (text == "" || text[0] == '=')
    ensures DecodeLong(mark + Written(p.ds), p.table, true, key + text, arg)
         == match LongMatch(p.table, key, true)
            case NotFound => None
            case Ambiguous => Some(Decoded(Event('?' as int, None, Some(0), None, None), "", 1))
            case Found(row) =>
              var o := p.table[row];
              Some(if text == "" && o.hasArg == 1 then
                     if arg.Some? then Decoded(RowEvent(p, row, arg), "", 2)
                     else Decoded(Event(LackingCode(mark), None, Some(o.val), None, None), "", 1)
                   else if text == "" then Decoded(RowEvent(p, row, None), "", 1)
                   else if o.hasArg != 0 then Decoded(RowEvent(p, row, Some(text[1..])), "", 1)
                   else Decoded(Event('?' as int, None, Some(o.val), None, None), "", 1))
  {
    hide LongMatch, Written, Orderly;
    var name := key + text;
    KeyOf(key, text);
    ColonFirst(mark, p.ds);
    assert name[..|key|] == key;
    assert text != "" ==> name[|key| + 1..] == text[1..];
  }

  // ----- the permuted command line is a normal form

  /** The call takes a following element as its argument, if there is one. */
  ghost predicate Wants(os: string, cfg: Config, elem: string, next: string)
    requires !NonOption(elem) && next != ""
  {
    Decode(os, cfg, elem, next, Some("")).used == 2
  }

  /** Only a call that wants an argument depends on what follows its element. */
  lemma DecodeArgument(os: string, cfg: Config, elem: string, next: string, arg: Option<string>)
    requires !NonOption(elem) && next != ""
    ensures var d := Decode(os, cfg, elem, next, arg);
            if Wants(os, cfg, elem, next) then
              if arg.Some? then d.used == 2 && d.event.optarg == arg
              else d.used == 1 && d.next == "" && d.event.optarg == None
            else d == Decode(os, cfg, elem, next, None)
  {
    hide LongMatch;
  }

  /** The scan in Permute mode ends in an option that wants an argument and has none. */
  ghost predicate Starved(cfg: Config, os: string, ahead: seq<string>, next: string)
    requires next != "" ==> ahead != [] && !NonOption(ahead[0])
    decreases |ahead|, if next != "" then |next| else if ahead == [] then 0 else |ahead[0]| + 1
  {
    if next != "" then
      var d := Decode(os, cfg, ahead[0], next, if |ahead| > 1 then Some(ahead[1]) else None);
      DecodeProgress(os, cfg, ahead[0], next, if |ahead| > 1 then Some(ahead[1]) else None);
      if |ahead| == 1 && Wants(os, cfg, ahead[0], next) then true
      else Starved(cfg, cfg.optstring, ahead[d.used..], d.next)
    else if ahead == [] || ahead[0] == "--" then false
    else if NonOption(ahead[0]) then Starved(cfg, os, ahead[1..], "")
    else Starved(cfg, os, ahead, Body(cfg, ahead[0]))
  }

  /** While text is left to decode, the options start with the element it belongs to. */
  lemma {:induction false} OptionsStart(cfg: Config, ordering: Ordering, os: string, ahead: seq<string>, next: string)
    requires next != "" && ahead != [] && !NonOption(ahead[0])
    ensures var o := Scan(cfg, ordering, os, ahead, next);
            o.options != [] && o.options[0] == ahead[0]
    decreases |next|
  {
    ScanCall(cfg, ordering, os, ahead, next);
    var d := Decode(os, cfg, ahead[0], next, if |ahead| > 1 then Some(ahead[1]) else None);
    hide Decode, Scan;
    if d.used == 0 {
      assert ahead[0..] == ahead;
      OptionsStart(cfg, ordering, cfg.optstring, ahead, d.next);
    }
  }

  /** The permuted list, followed by `x`, scanned as a strictly ordered one. */
  ghost predicate Rescans(cfg: Config, os: string, ahead: seq<string>, next: string, x: seq<string>)
    requires next != "" ==> ahead != [] && !NonOption(ahead[0])
  {
    var o := Scan(cfg, Permute, os, ahead, next);
    && (next != "" ==> o.options != [] && o.options[0] == ahead[0])
    && Scan(cfg, RequireOrder, os, o.options + x, next) == o.(operands := x)
  }

  lemma {:induction false} RescanFrom(cfg: Config, os: string, ahead: seq<string>, next: string, skipped: seq<string>)
    requires next != "" ==> ahead != [] && !NonOption(ahead[0])
    requires forall i :: 0 <= i < |skipped| ==> NonOption(skipped[i])
    ensures var x := skipped + Scan(cfg, Permute, os, ahead, next).operands;
            Rescans(cfg, os, ahead, next, x) <==> !(Starved(cfg, os, ahead, next) && x != [])
    decreases |ahead|, if next != "" then |next| else if ahead == [] then 0 else |ahead[0]| + 1
  {
    hide Decode;
    var o := Scan(cfg, Permute, os, ahead, next);
    var x := skipped + o.operands;
    if next != "" {
      RescanCall(cfg, os, ahead, next, skipped);
    } else if ahead == [] {
      assert o.options + x == x && x == skipped;
    } else if ahead[0] == "--" {
      assert (o.options + x)[1..] == x && (o.options + x)[..1] == o.options;
    } else if NonOption(ahead[0]) {
      RescanFrom(cfg, os, ahead[1..], "", skipped + [ahead[0]]);
      assert skipped + [ahead[0]] + Scan(cfg, Permute, os, ahead[1..], "").operands == x;
    } else {
      RescanFrom(cfg, os, ahead, Body(cfg, ahead[0]), skipped);
      OptionsStart(cfg, Permute, os, ahead, Body(cfg, ahead[0]));
      ScanElement(cfg, RequireOrder, os, o.options + x);
    }
  }

  /** The case of an option that wants an argument in the last element. */
  lemma RescanLast(cfg: Config, os: string, elem: string, next: string, skipped: seq<string>)
    requires next != "" && !NonOption(elem) && Wants(os, cfg, elem, next)
    ensures var o := Scan(cfg, Permute, os, [elem], next);
            o.options == [elem] && o.operands == []
            && (Rescans(cfg, os, [elem], next, skipped) <==> skipped == [])
  {
    hide Decode;
    var again := [elem] + skipped;
    ScanCall(cfg, Permute, os, [elem], next);
    ScanCall(cfg, RequireOrder, os, again, next);
    var arg' := if skipped != [] then Some(again[1]) else None;
    DecodeArgument(os, cfg, elem, next, None);
    DecodeArgument(os, cfg, elem, next, arg');
    assert [elem][1..] == [];
    if skipped == [] {
      assert again == [elem];
    } else {
      hide Scan;
      assert Scan(cfg, RequireOrder, os, again, next).events[0].optarg.Some?;
      assert Scan(cfg, Permute, os, [elem], next).events[0].optarg == None;
    }
  }

  /** Any other call reports the same whatever has been moved behind its element. */
  lemma RescanOther(cfg: Config, os: string, ahead: seq<string>, next: string, x: seq<string>, d: Decoded)
    requires next != "" && ahead != [] && !NonOption(ahead[0])
    requires d == Decode(os, cfg, ahead[0], next, if |ahead| > 1 then Some(ahead[1]) else None)
    requires !(|ahead| == 1 && Wants(os, cfg, ahead[0], next))
    requires d.used <= |ahead| && (d.next != "" <==> d.used == 0)
    ensures Rescans(cfg, os, ahead, next, x) <==> Rescans(cfg, cfg.optstring, ahead[d.used..], d.next, x)
  {
    hide Scan, Decode, Wants;
    var rest := Scan(cfg, Permute, cfg.optstring, ahead[d.used..], d.next);
    var o := Scan(cfg, Permute, os, ahead, next);
    ScanCall(cfg, Permute, os, ahead, next);
    OptionsStart(cfg, Permute, os, ahead, next);
    if d.next != "" {
      assert ahead[0..] == ahead;
      OptionsStart(cfg, Permute, cfg.optstring, ahead, d.next);
    }
    var again := o.options + x;
    var arg' := if |again| > 1 then Some(again[1]) else None;
    assert d.used == 2 ==> again[1] == ahead[1];
    assert Decode(os, cfg, ahead[0], next, arg') == d by {
      DecodeArgument(os, cfg, ahead[0], next, if |ahead| > 1 then Some(ahead[1]) else None);
      DecodeArgument(os, cfg, ahead[0], next, arg');
    }
    ScanCall(cfg, RequireOrder, os, again, next);
    RescanReport(d.event, ahead, d.used, rest, x, Scan(cfg, RequireOrder, cfg.optstring, again[d.used..], d.next));
    assert again[d.used..] == rest.options + x;
  }

  lemma RescanReport(event: Event, ahead: seq<string>, n: nat, rest: Outcome, x: seq<string>, r: Outcome)
    requires n <= |ahead|
    ensures var o := Report(event, ahead[..n], rest);
            && (o.options + x)[n..] == rest.options + x
            && (Report(event, (o.options + x)[..n], r) == o.(operands := x)
                <==> r == rest.(operands := x))
  {
    var o := Report(event, ahead[..n], rest);
    assert (o.options + x)[..n] == ahead[..n];
    ReportInjective(event, ahead[..n], r, rest.(operands := x));
  }

  lemma {:induction false} RescanCall(cfg: Config, os: string, ahead: seq<string>, next: string, skipped: seq<string>)
    requires next != "" && ahead != [] && !NonOption(ahead[0])
    requires forall i :: 0 <= i < |skipped| ==> NonOption(skipped[i])
    ensures var x := skipped + Scan(cfg, Permute, os, ahead, next).operands;
            Rescans(cfg, os, ahead, next, x) <==> !(Starved(cfg, os, ahead, next) && x != [])
    decreases |ahead|, |next|, 0
  {
    hide Decode, Wants, Rescans;
    var arg := if |ahead| > 1 then Some(ahead[1]) else None;
    var d := Decode(os, cfg, ahead[0], next, arg);
    ScanCall(cfg, Permute, os, ahead, next);
    var x := skipped + Scan(cfg, Permute, os, ahead, next).operands;
    if |ahead| == 1 && Wants(os, cfg, ahead[0], next) {
      assert ahead == [ahead[0]];
      RescanLast(cfg, os, ahead[0], next, skipped);
      assert x == skipped;
    } else {
      RescanFrom(cfg, cfg.optstring, ahead[d.used..], d.next, skipped);
      RescanOther(cfg, os, ahead, next, x, d);
    }
  }

  lemma ReportInjective(event: Event, used: seq<string>, a: Outcome, b: Outcome)
    ensures Report(event, used, a) == Report(event, used, b) <==> a == b
  {
    var p, q := Report(event, used, a), Report(event, used, b);
    assert p.events[1..] == a.events && q.events[1..] == b.events;
    assert p.options[|used|..] == a.options && q.options[|used|..] == b.options;
  }

  /**
   The permuted command line is a normal form: scanning it in strict order reports the same
   events and leaves the same operands - except that, when operands have been moved behind an
   option that lacked its argument at the end, the option would now take the first of them.
   */
  lemma PermutedIsNormal(cfg: Config, os: string, args: seq<string>)
    ensures var o := Scan(cfg, Permute, os, args, "");
            Scan(cfg, RequireOrder, os, o.options + o.operands, "") == o
            <==> !(Starved(cfg, os, args, "") && o.operands != [])
  {
    hide Scan, Starved;
    var o := Scan(cfg, Permute, os, args, "");
    RescanFrom(cfg, os, args, "", []);
    assert [] + o.operands == o.operands;
  }

  /** For example, in `x -a` the option lacks its argument, and in the permuted `-a x` it takes the operand. */
  lemma StarvedTakesOperand()
    ensures var cfg, a := Config("a:", None, false), 'a' as int;
            && Scan(cfg, Permute, "a:", ["x", "-a"], "")
               == Outcome([Event('?' as int, None, Some(a), None, None)], ["-a"], ["x"], false)
            && Scan(cfg, RequireOrder, "a:", ["-a", "x"], "")
               == Outcome([Event(a, Some("x"), None, None, None)], ["-a", "x"], [], false)
  {
    var cfg := Config("a:", None, false);
    assert KindOf("a:", 'a') == Required && Body(cfg, "-a") == "a" && NonOption("x") && !NonOption("-a");
    assert "a"[1..] == "" && ["x", "-a"][1..] == ["-a"] && ["x", "-a"][..1] == ["x"];
    ScanOperand(cfg, "a:", ["x", "-a"]);
    ScanElement(cfg, Permute, "a:", ["-a"]);
    ScanElement(cfg, RequireOrder, "a:", ["-a", "x"]);
    ScanCall(cfg, Permute, "a:", ["-a"], "a");
    ScanCall(cfg, RequireOrder, "a:", ["-a", "x"], "a");
    ScanNothing(cfg, Permute);
    ScanNothing(cfg, RequireOrder);
    hide Scan, KindOf, Body;
    assert ["-a"][1..] == [] && ["-a"][..1] == ["-a"] && ["-a", "x"][2..] == [] && ["-a", "x"][..2] == ["-a", "x"];
  }

  lemma ScanNothing(cfg: Config, ordering: Ordering)
    ensures Scan(cfg, ordering, cfg.optstring, [], "") == Outcome([], [], [], false)
  {
  }
}
