/**
 The meaning of one getopt scan, written as recursion over an untouched argument list.

 `Decode` says what one call reports about the option element it stands in, and `Scan`
 folds that over the elements that are still ahead.  Nothing here permutes anything: the
 in-place scanner of GetoptScanner.dfy is proved to agree with these definitions.
 */
module Getopt {
  import opened Prelude

  datatype Ordering = RequireOrder | Permute | ReturnInOrder

  /** One row of the long-option table; `flag` names the variable to be written, if any. */
  datatype LongOption = LongOption(name: string, hasArg: int, flag: Option<nat>, val: int)

  /** The arguments a caller passes on every call. */
  datatype Config = Config(optstring: string, longopts: Option<seq<LongOption>>, longOnly: bool)

  /** Everything one call reports: the code it returns and each variable it writes. */
  datatype Event = Event(code: int, optarg: Option<string>, optopt: Option<int>,
                         longind: Option<nat>, store: Option<(nat, int)>)

  const OPERAND := 1
  const QUESTION := '?' as int
  const COLON := ':' as int

  function Plain(code: int, optarg: Option<string>): Event {
    Event(code, optarg, None, None, None)
  }

  function Complaint(code: int, optopt: int): Event {
    Event(code, None, Some(optopt), None, None)
  }

  /** What a call reports for a required argument that is not there. */
  function Missing(os: string, optopt: int): Event {
    Complaint(if os != "" && os[0] == ':' then COLON else QUESTION, optopt)
  }

  // ----- the shape of an argument

  predicate NonOption(s: string) {
    |s| < 2 || s[0] != '-'
  }

  /** The part of an option element that holds names: the text after `-`, or after `--`. */
  function Body(cfg: Config, elem: string): string
    requires !NonOption(elem)
  {
    if cfg.longopts.Some? && elem[1] == '-' then elem[2..] else elem[1..]
  }

  // ----- option letters

  function IndexOf(s: string, c: char): (i: nat)
    ensures i <= |s| && c !in s[..i]
    ensures i < |s| <==> c in s
    ensures i < |s| ==> s[i] == c
  {
    if s == "" || s[0] == c then 0 else 1 + IndexOf(s[1..], c)
  }

  datatype ShortKind = Undeclared | NoArgument | Required | Optional

  /** How the option string declares a letter. */
  function KindOf(os: string, c: char): ShortKind {
    var i := IndexOf(os, c);
    if c == ':' || i == |os| then Undeclared
    else if i + 1 < |os| && os[i + 1] == ':' then
      if i + 2 < |os| && os[i + 2] == ':' then Optional else Required
    else NoArgument
  }

  /** The option string does not ask for the `-W foo` extension. */
  predicate NoLongW(os: string) {
    var i := IndexOf(os, 'W');
    i + 1 < |os| ==> os[i + 1] != ';'
  }

  lemma NoLongWTail(os: string)
    requires NoLongW(os)
    ensures os != "" && os[0] != 'W' ==> NoLongW(os[1..])
  {
    if os != "" && os[0] != 'W' {
      assert IndexOf(os, 'W') == 1 + IndexOf(os[1..], 'W');
    }
  }

  // ----- long names

  datatype Lookup = NotFound | Ambiguous | Found(index: nat)

  predicate Agree(p: LongOption, q: LongOption) {
    p.hasArg == q.hasArg && p.flag == q.flag && p.val == q.val
  }

  /** Row `i` bears the name, or (not `exact`) a name the key abbreviates. */
  predicate Hit(table: seq<LongOption>, key: string, exact: bool, i: int) {
    0 <= i < |table| && if exact then table[i].name == key else key <= table[i].name
  }

  /** The first row at or after `from` that is hit, or |table|. */
  function First(table: seq<LongOption>, key: string, exact: bool, from: nat): (i: nat)
    requires from <= |table|
    ensures from <= i <= |table|
    ensures forall j :: from <= j < i ==> !Hit(table, key, exact, j)
    ensures i < |table| ==> Hit(table, key, exact, i)
    decreases |table| - from
  {
    if from == |table| || Hit(table, key, exact, from) then from else First(table, key, exact, from + 1)
  }

  /** Every other row that the key abbreviates would behave like row `f`. */
  ghost predicate OneBehaviour(table: seq<LongOption>, key: string, longOnly: bool, f: nat)
    requires f < |table|
  {
    forall j :: Hit(table, key, false, j) && j != f ==> !longOnly && Agree(table[f], table[j])
  }

  /** The row an abbreviated name stands for. */
  ghost function LongMatch(table: seq<LongOption>, key: string, longOnly: bool): (r: Lookup)
    ensures r.Found? ==> r.index < |table|
  {
    var e, f := First(table, key, true, 0), First(table, key, false, 0);
    if e < |table| then Found(e)
    else if f == |table| then NotFound
    else if OneBehaviour(table, key, longOnly, f) then Found(f)
    else Ambiguous
  }

  /**
   The rule for long names, without a scan: an exact name wins wherever it stands; failing
   that a row wins if it is the first one the key abbreviates and all the others agree with it.
   */
  lemma LongMatchRule(table: seq<LongOption>, key: string, longOnly: bool, i: nat)
    ensures LongMatch(table, key, longOnly) == Found(i) <==>
            && i < |table|
            && if exists j | 0 <= j < |table| :: table[j].name == key then
                 table[i].name == key && forall j | 0 <= j < i :: table[j].name != key
               else
                 && key <= table[i].name
                 && (forall j | 0 <= j < i :: !(key <= table[j].name))
                 && forall j | i < j < |table| && key <= table[j].name ::
                      && !longOnly && table[j].hasArg == table[i].hasArg
                      && table[j].flag == table[i].flag && table[j].val == table[i].val
    ensures LongMatch(table, key, longOnly) == NotFound <==> forall j | 0 <= j < |table| :: !(key <= table[j].name)
  {
    var e, f := First(table, key, true, 0), First(table, key, false, 0);
    assert forall j :: Hit(table, key, true, j) <==> 0 <= j < |table| && table[j].name == key;
    assert forall j :: Hit(table, key, false, j) <==> 0 <= j < |table| && key <= table[j].name;
    assert e < |table| ==> Hit(table, key, true, e);
    assert f < |table| ==> Hit(table, key, false, f);
    assert i < e ==> !Hit(table, key, true, i);
    assert i < f ==> !Hit(table, key, false, i);
    hide First, Hit;
    assert forall j | 0 <= j < |table| && table[j].name == key :: e <= j;
  }

  // ----- the start of a scan

  /** The ordering a scan follows, and the option string its first call sees. */
  function Opening(optstring: string, posixlyCorrect: bool): (Ordering, string) {
    if optstring != "" && optstring[0] == '-' then (ReturnInOrder, optstring[1..])
    else if optstring != "" && optstring[0] == '+' then (RequireOrder, optstring[1..])
    else (if posixlyCorrect then RequireOrder else Permute, optstring)
  }

  /** A mark at the front decides and is taken off; without one the environment decides. */
  lemma OpeningRule(os: string, posixlyCorrect: bool)
    ensures Opening("-" + os, posixlyCorrect) == (ReturnInOrder, os)
    ensures Opening("+" + os, posixlyCorrect) == (RequireOrder, os)
    ensures (os != "" ==> os[0] !in "+-") ==>
              Opening(os, posixlyCorrect) == (if posixlyCorrect then RequireOrder else Permute, os)
  {
    assert ("-" + os)[1..] == os && ("+" + os)[1..] == os;
  }

  // ----- one call inside an option element

  /** `next` is the text still to be decoded; `used` counts the elements this call finishes. */
  datatype Decoded = Decoded(event: Event, next: string, used: nat)

  function DecodeShort(os: string, next: string, arg: Option<string>): Decoded
    requires next != ""
  {
    var c, text := next[0] as int, next[1..];
    match KindOf(os, next[0])
    case Undeclared => Decoded(Complaint(QUESTION, c), text, if text == "" then 1 else 0)
    case NoArgument => Decoded(Plain(c, None), text, if text == "" then 1 else 0)
    case Optional => Decoded(Plain(c, if text == "" then None else Some(text)), "", 1)
    case Required =>
      if text != "" then Decoded(Plain(c, Some(text)), "", 1)
      else match arg
           case Some(value) => Decoded(Plain(c, arg), "", 2)
           case None => Decoded(Missing(os, c), "", 1)
  }

  /** The report for the long option in row `i`. */
  function Chosen(table: seq<LongOption>, i: nat, optarg: Option<string>): Event
    requires i < |table|
  {
    var o := table[i];
    match o.flag
    case None => Event(o.val, optarg, None, Some(i), None)
    case Some(v) => Event(0, optarg, None, Some(i), Some((v, o.val)))
  }

  ghost function DecodeLong(os: string, table: seq<LongOption>, longOnly: bool, next: string,
                            arg: Option<string>): Option<Decoded>
  {
    var n := IndexOf(next, '=');
    match LongMatch(table, next[..n], longOnly)
    case NotFound => None
    case Ambiguous => Some(Decoded(Complaint(QUESTION, 0), "", 1))
    case Found(i) =>
      var o := table[i];
      if n < |next| then
        if o.hasArg != 0 then Some(Decoded(Chosen(table, i, Some(next[n + 1..])), "", 1))
        else Some(Decoded(Complaint(QUESTION, o.val), "", 1))
      else if o.hasArg == 1 then
        match arg
        case Some(value) => Some(Decoded(Chosen(table, i, arg), "", 2))
        case None => Some(Decoded(Missing(os, o.val), "", 1))
      else Some(Decoded(Chosen(table, i, None), "", 1))
  }

  /** Is the element (also) to be read as a long option? */
  predicate TriesLong(os: string, cfg: Config, elem: string)
    requires !NonOption(elem)
  {
    && cfg.longopts.Some?
    && (elem[1] == '-' || (cfg.longOnly && (|elem| > 2 || elem[1] !in os)))
  }

  ghost function Decode(os: string, cfg: Config, elem: string, next: string, arg: Option<string>): Decoded
    requires !NonOption(elem) && next != ""
  {
    if TriesLong(os, cfg, elem) then
      match DecodeLong(os, cfg.longopts.value, cfg.longOnly, next, arg)
      case Some(d) => d
      case None =>
        if !cfg.longOnly || elem[1] == '-' || next[0] !in os
        then Decoded(Complaint(QUESTION, 0), "", 1)
        else DecodeShort(os, next, arg)
    else DecodeShort(os, next, arg)
  }

  predicate Progresses(d: Decoded, next: string, arg: Option<string>)
    requires next != ""
  {
    && (d.used == 0 <==> d.next != "")
    && d.used <= (if arg.Some? then 2 else 1)
    && (d.next != "" ==> d.next == next[1..])
  }

  lemma DecodeShortProgress(os: string, next: string, arg: Option<string>)
    requires next != ""
    ensures Progresses(DecodeShort(os, next, arg), next, arg)
  {
  }

  lemma DecodeLongProgress(os: string, table: seq<LongOption>, longOnly: bool, next: string, arg: Option<string>)
    requires next != ""
    ensures var d := DecodeLong(os, table, longOnly, next, arg);
            d.Some? ==> Progresses(d.value, next, arg)
  {
  }

  /** A call always makes progress, and never takes an argument that is not there. */
  lemma DecodeProgress(os: string, cfg: Config, elem: string, next: string, arg: Option<string>)
    requires !NonOption(elem) && next != ""
    ensures Progresses(Decode(os, cfg, elem, next, arg), next, arg)
  {
    hide DecodeShort, DecodeLong;
    DecodeShortProgress(os, next, arg);
    if cfg.longopts.Some? {
      DecodeLongProgress(os, cfg.longopts.value, cfg.longOnly, next, arg);
    }
  }

  // ----- a whole scan

  /**
   The reports in order, the elements consumed as options, the operands left over, and whether
   a `--` ended the scan.
   */
  datatype Outcome = Outcome(events: seq<Event>, options: seq<string>, operands: seq<string>, ended: bool)

  /**
   Scan the elements ahead.  `os` is the option string of the next call, `next` the text that
   call still has to decode inside the first element (empty when it is to start a new one).
   Every call after it sees the option string the caller passes, unstripped.
   */
  ghost function Scan(cfg: Config, ordering: Ordering, os: string, ahead: seq<string>, next: string): Outcome
    requires next != "" ==> ahead != [] && !NonOption(ahead[0])
    decreases |ahead|, if next != "" then |next| else if ahead == [] then 0 else |ahead[0]| + 1
  {
    if next != "" then
      var d := Decode(os, cfg, ahead[0], next, if |ahead| > 1 then Some(ahead[1]) else None);
      DecodeProgress(os, cfg, ahead[0], next, if |ahead| > 1 then Some(ahead[1]) else None);
      Report(d.event, ahead[..d.used], Scan(cfg, ordering, cfg.optstring, ahead[d.used..], d.next))
    else if ahead == [] then
      Outcome([], [], [], false)
    else if ahead[0] == "--" then
      Outcome([], ahead[..1], ahead[1..], true)
    else if NonOption(ahead[0]) then
      match ordering
      case Permute =>
        var rest := Scan(cfg, ordering, os, ahead[1..], "");
        rest.(operands := ahead[..1] + rest.operands)
      case RequireOrder =>
        Outcome([], [], ahead, false)
      case ReturnInOrder =>
        Report(Plain(OPERAND, Some(ahead[0])), ahead[..1],
               Scan(cfg, ordering, cfg.optstring, ahead[1..], ""))
    else
      Scan(cfg, ordering, os, ahead, Body(cfg, ahead[0]))
  }

  function Report(event: Event, used: seq<string>, rest: Outcome): Outcome {
    Outcome([event] + rest.events, used + rest.options, rest.operands, rest.ended)
  }

  /** Inside an element the scan is one decoded call followed by the rest. */
  lemma ScanCall(cfg: Config, ordering: Ordering, os: string, ahead: seq<string>, next: string)
    requires next != "" && ahead != [] && !NonOption(ahead[0])
    ensures var d := Decode(os, cfg, ahead[0], next, if |ahead| > 1 then Some(ahead[1]) else None);
            && Progresses(d, next, if |ahead| > 1 then Some(ahead[1]) else None)
            && Scan(cfg, ordering, os, ahead, next)
               == Report(d.event, ahead[..d.used], Scan(cfg, ordering, cfg.optstring, ahead[d.used..], d.next))
  {
    hide Decode, Report;
    DecodeProgress(os, cfg, ahead[0], next, if |ahead| > 1 then Some(ahead[1]) else None);
  }

  /** At an option element the scan goes inside it. */
  lemma ScanElement(cfg: Config, ordering: Ordering, os: string, ahead: seq<string>)
    requires ahead != [] && !NonOption(ahead[0]) && ahead[0] != "--"
    ensures Scan(cfg, ordering, os, ahead, "") == Scan(cfg, ordering, os, ahead, Body(cfg, ahead[0]))
  {
    hide Decode, Report;
  }

  /** In Permute mode an operand is passed over. */
  lemma ScanOperand(cfg: Config, os: string, ahead: seq<string>)
    requires ahead != [] && NonOption(ahead[0])
    ensures var rest := Scan(cfg, Permute, os, ahead[1..], "");
            Scan(cfg, Permute, os, ahead, "") == rest.(operands := ahead[..1] + rest.operands)
  {
    hide Decode, Report;
  }

  lemma ScanDashes(cfg: Config, ordering: Ordering, os: string, ahead: seq<string>)
    requires ahead != [] && ahead[0] == "--"
    ensures Scan(cfg, ordering, os, ahead, "") == Outcome([], ahead[..1], ahead[1..], true)
  {
    hide Decode, Report;
  }
}
