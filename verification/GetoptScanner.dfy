/**
 The resumable getopt scanner: its static variables are the fields of `Scanner`, and `argv`
 is permuted in place.
 */
module GetoptScanner {
  import opened Prelude
  import opened Getopt
  import GetoptProperties

  /** `s` with the runs of `len` elements at `i` and at `j` exchanged. */
  function Swapped(s: seq<string>, i: nat, j: nat, len: nat): (r: seq<string>)
    requires i + len <= j && j + len <= |s|
    ensures |r| == |s|
  {
    s[..i] + s[j..j + len] + s[i + len..j] + s[i..i + len] + s[j + len..]
  }

  lemma SwappedPointwise(s: seq<string>, t: seq<string>, i: nat, j: nat, len: nat)
    requires i + len <= j && j + len <= |s| == |t|
    requires forall k {:trigger t[k]} :: 0 <= k < |s| ==>
               t[k] == if i <= k < i + len then s[j + k - i] else if j <= k < j + len then s[i + k - j] else s[k]
    ensures t == Swapped(s, i, j, len)
  {
    forall k | 0 <= k < |s| ensures t[k] == Swapped(s, i, j, len)[k] {
      SwappedAt(s, i, j, len, k);
    }
  }

  method SwapRuns(argv: array<string>, i: nat, j: nat, len: nat)
    requires i + len <= j && j + len <= argv.Length
    modifies argv
    ensures argv[..] == Swapped(old(argv[..]), i, j, len)
  {
    for n := 0 to len
      invariant forall k :: 0 <= k < argv.Length ==>
                  argv[k] == old(if i <= k < i + n then argv[j + k - i]
                                 else if j <= k < j + n then argv[i + k - j] else argv[k])
    {
      argv[i + n], argv[j + n] := argv[j + n], argv[i + n];
    }
    SwappedPointwise(old(argv[..]), argv[..], i, j, len);
  }

  /** `s` with its blocks [bottom,middle) and [middle,top) in the opposite order. */
  function Rotated(s: seq<string>, bottom: nat, middle: nat, top: nat): (r: seq<string>)
    requires bottom <= middle <= top <= |s|
    ensures |r| == |s|
  {
    s[..bottom] + s[middle..top] + s[bottom..middle] + s[top..]
  }

  lemma SwappedAt(s: seq<string>, i: nat, j: nat, len: nat, k: nat)
    requires i + len <= j && j + len <= |s| && k < |s|
    ensures Swapped(s, i, j, len)[k] ==
            if i <= k < i + len then s[j + k - i] else if j <= k < j + len then s[i + k - j] else s[k]
  {
  }

  lemma RotatedAt(s: seq<string>, bottom: nat, middle: nat, top: nat, k: nat)
    requires bottom <= middle <= top <= |s| && k < |s|
    ensures Rotated(s, bottom, middle, top)[k] ==
            if k < bottom || top <= k then s[k]
            else if k < bottom + (top - middle) then s[middle + k - bottom]
            else s[k - (top - middle)]
  {
  }

  lemma RotateDone(s: seq<string>, bottom: nat, middle: nat, top: nat)
    requires bottom <= middle <= top <= |s| && (bottom == middle || middle == top)
    ensures Rotated(s, bottom, middle, top) == s
  {
  }

  /** A short bottom block, exchanged with the end of the top block, is in its final place. */
  lemma RotateBottom(s: seq<string>, bottom: nat, middle: nat, top: nat)
    requires bottom <= middle <= top <= |s| && middle - bottom <= top - middle
    ensures var len := middle - bottom;
            Rotated(Swapped(s, bottom, top - len, len), bottom, middle, top - len) == Rotated(s, bottom, middle, top)
  {
    hide Rotated, Swapped;
    var len := middle - bottom;
    var t := Swapped(s, bottom, top - len, len);
    forall k | 0 <= k < |s| ensures Rotated(t, bottom, middle, top - len)[k] == Rotated(s, bottom, middle, top)[k] {
      RotatedAt(s, bottom, middle, top, k);
      RotatedAt(t, bottom, middle, top - len, k);
      var origin := if k < bottom || top - len <= k then k
                    else if k < bottom + (top - len - middle) then middle + k - bottom
                    else k - (top - len - middle);
      SwappedAt(s, bottom, top - len, len, origin);
    }
  }

  /** A short top block, exchanged with the start of the bottom block, is in its final place. */
  lemma RotateTop(s: seq<string>, bottom: nat, middle: nat, top: nat)
    requires bottom <= middle <= top <= |s| && top - middle <= middle - bottom
    ensures var len := top - middle;
            Rotated(Swapped(s, bottom, middle, len), bottom + len, middle, top) == Rotated(s, bottom, middle, top)
  {
    hide Rotated, Swapped;
    var len := top - middle;
    var t := Swapped(s, bottom, middle, len);
    forall k | 0 <= k < |s| ensures Rotated(t, bottom + len, middle, top)[k] == Rotated(s, bottom, middle, top)[k] {
      RotatedAt(s, bottom, middle, top, k);
      RotatedAt(t, bottom + len, middle, top, k);
      var origin := if k < bottom + len || top <= k then k
                    else if k < bottom + len + len then middle + k - (bottom + len)
                    else k - len;
      SwappedAt(s, bottom, middle, len, origin);
    }
  }

  /** Exchange the block [first,last) with [last,end), always moving the shorter one into place. */
  method Rotate(argv: array<string>, first: nat, last: nat, end: nat)
    requires first <= last <= end <= argv.Length
    modifies argv
    ensures argv[..] == Rotated(old(argv[..]), first, last, end)
  {
    hide Rotated, Swapped;
    ghost var goal := Rotated(argv[..], first, last, end);
    var bottom, middle, top := first, last, end;
    while top > middle && middle > bottom
      invariant 0 <= bottom <= middle <= top <= argv.Length
      invariant Rotated(argv[..], bottom, middle, top) == goal
      decreases top - bottom
    {
      ghost var was := argv[..];
      if top - middle > middle - bottom {
        var len := middle - bottom;
        SwapRuns(argv, bottom, top - len, len);
        RotateBottom(was, bottom, middle, top);
        top := top - len;
      } else {
        var len := top - middle;
        SwapRuns(argv, bottom, middle, len);
        RotateTop(was, bottom, middle, top);
        bottom := bottom + len;
      }
    }
    RotateDone(argv[..], bottom, middle, top);
  }

  /**
   What becomes of a whole command line whose scan has reached `optind`: skipped operands lie
   in [first,last), the options found since in [last,optind), and `ahead` is the rest of the scan.
   */
  ghost function Whole(argv: seq<string>, first: nat, last: nat, optind: nat, ahead: Outcome): Outcome
    requires first <= last <= optind <= |argv|
  {
    Outcome(ahead.events, argv[..first] + argv[last..optind] + ahead.options, argv[first..last] + ahead.operands,
            ahead.ended)
  }

  /** Skipping operands and then scanning is the same scan. */
  lemma {:induction false} ScanSkips(cfg: Config, os: string, ahead: seq<string>, n: nat)
    requires n <= |ahead| && forall k :: 0 <= k < n ==> NonOption(ahead[k])
    ensures var rest := Scan(cfg, Permute, os, ahead[n..], "");
            Scan(cfg, Permute, os, ahead, "") == rest.(operands := ahead[..n] + rest.operands)
  {
    hide Scan;
    if n == 0 {
      assert ahead[0..] == ahead;
    } else {
      ScanOperand(cfg, os, ahead);
      ScanSkips(cfg, os, ahead[1..], n - 1);
      assert ahead[1..][n - 1..] == ahead[n..];
      assert ahead[..n] == ahead[..1] + ahead[1..][..n - 1];
    }
  }

  /** Moving the skipped operands behind the later options changes nothing of the whole. */
  lemma WholeExchanged(s: seq<string>, first: nat, last: nat, end: nat, ahead: Outcome)
    requires first <= last <= end <= |s|
    ensures Whole(Rotated(s, first, last, end), first + (end - last), end, end, ahead)
         == Whole(s, first, last, end, ahead)
    ensures Rotated(s, first, last, end)[end..] == s[end..]
  {
    var t, mid := Rotated(s, first, last, end), first + (end - last);
    assert t[..mid] + t[end..end] == s[..first] + s[last..end];
    assert t[mid..end] == s[first..last];
  }

  /** With nothing skipped so far, the marks may be moved up to the scan. */
  lemma WholeUnskipped(s: seq<string>, mark: nat, end: nat, ahead: Outcome)
    requires mark <= end <= |s|
    ensures Whole(s, mark, mark, end, ahead) == Whole(s, end, end, end, ahead)
  {
    assert s[..mark] + s[mark..end] == s[..end] + s[end..end];
    assert s[mark..mark] == s[end..end];
  }

  /** Operands that are passed over in Permute mode are part of the skipped block. */
  lemma WholeSkipped(s: seq<string>, first: nat, end: nat, cfg: Config, os: string, n: nat)
    requires first <= end && end + n <= |s| && forall k :: end <= k < end + n ==> NonOption(s[k])
    ensures Whole(s, first, end, end, Scan(cfg, Permute, os, s[end..], "")) ==
            Whole(s, first, end + n, end + n, Scan(cfg, Permute, os, s[end + n..], ""))
  {
    hide Scan;
    ScanSkips(cfg, os, s[end..], n);
    assert s[end..][n..] == s[end + n..];
    var rest := Scan(cfg, Permute, os, s[end + n..], "");
    assert s[first..end] + (s[end..][..n] + rest.operands) == s[first..end + n] + rest.operands;
    assert s[..first] + s[end..end] == s[..first] + s[end + n..end + n];
  }

  /** `--` belongs to the options, and everything after it to the operands. */
  lemma WholeEnded(s: seq<string>, first: nat, last: nat, end: nat, cfg: Config, ordering: Ordering, os: string)
    requires first <= last <= end < |s| && s[end] == "--" && (first != last ==> last == end)
    ensures var whole := Whole(s, first, last, end, Scan(cfg, ordering, os, s[end..], ""));
            && whole.events == []
            && Rotated(s, first, last, end + 1) == whole.options + whole.operands
            && |whole.options| == if first == last then end + 1 else first + 1
  {
    hide Scan;
    ScanDashes(cfg, ordering, os, s[end..]);
    assert s[end..][..1] == [s[end]] && s[end..][1..] == s[end + 1..];
    if first == last {
      assert s[..first] + s[last..end] + [s[end]] == s[..end + 1];
    } else {
      assert s[..first] + s[last..end] + [s[end]] == s[..first] + s[last..end + 1];
    }
  }

  lemma RotatedNone(s: seq<string>, mark: nat, end: nat)
    requires mark <= end <= |s|
    ensures Rotated(s, mark, mark, end) == s
  {
    assert s[..mark] + s[mark..end] + s[mark..mark] + s[end..] == s;
  }

  /** A scan that ends without `--` leaves what is ahead to the operands. */
  lemma WholeStopped(s: seq<string>, first: nat, last: nat, end: nat, cfg: Config, ordering: Ordering, os: string)
    requires first <= last <= end <= |s| && (first != last ==> last == end)
    requires end < |s| ==> s[end] != "--"
    ensures var whole := Whole(s, first, last, end, Scan(cfg, ordering, os, s[end..], ""));
            if end == |s| || (NonOption(s[end]) && ordering == RequireOrder && first == last) then
              && whole.events == []
              && s == whole.options + whole.operands
              && |whole.options| == if first == last then end else first
            else if !NonOption(s[end]) then
              whole == Whole(s, first, last, end, Scan(cfg, ordering, os, s[end..], Body(cfg, s[end])))
            else true
  {
    hide Decode;
    if end < |s| && !NonOption(s[end]) {
      assert s[end..][0] == s[end];
    } else if end == |s| || (NonOption(s[end]) && ordering == RequireOrder && first == last) {
      assert Scan(cfg, ordering, os, s[end..], "") == Outcome([], [], s[end..], false);
      hide Scan;
      if first == last {
        assert s[..first] + s[last..end] + [] == s[..end];
      } else {
        assert s[..first] + s[last..end] + [] == s[..first];
      }
    }
  }

  /** A reported call moves the elements it used to the options, and its event to the past. */
  lemma WholeReported(s: seq<string>, first: nat, last: nat, end: nat, event: Event, n: nat, rest: Outcome)
    requires first <= last <= end && end + n <= |s|
    ensures var whole := Whole(s, first, last, end, Report(event, s[end..end + n], rest));
            && whole.events != [] && whole.events[0] == event
            && whole.(events := whole.events[1..]) == Whole(s, first, last, end + n, rest)
  {
    assert s[last..end + n] == s[last..end] + s[end..end + n];
    assert s[..first] + s[last..end] + (s[end..end + n] + rest.options) == s[..first] + s[last..end + n] + rest.options;
    assert ([event] + rest.events)[1..] == rest.events;
  }

  /** What the first call of a scan reports, and the scan left after it. */
  lemma ScanReported(cfg: Config, ordering: Ordering, os: string, s: seq<string>, end: nat, next: string)
    requires end < |s| && if next != "" then !NonOption(s[end]) else ordering == ReturnInOrder && NonOption(s[end])
    ensures var d := if next == "" then Decoded(Plain(OPERAND, Some(s[end])), "", 1)
                     else Decode(os, cfg, s[end], next, if end + 1 < |s| then Some(s[end + 1]) else None);
            && end + d.used <= |s|
            && (d.next != "" ==> d.used == 0 && d.next == next[1..])
            && Scan(cfg, ordering, os, s[end..], next) ==
               Report(d.event, s[end..end + d.used], Scan(cfg, ordering, cfg.optstring, s[end + d.used..], d.next))
  {
    hide Decode, Report;
    var ahead := s[end..];
    assert ahead[0] == s[end] && (|ahead| > 1 ==> ahead[1] == s[end + 1]);
    if next == "" {
      assert ahead[..1] == s[end..end + 1] && ahead[1..] == s[end + 1..];
    } else {
      var arg := if end + 1 < |s| then Some(s[end + 1]) else None;
      DecodeProgress(os, cfg, s[end], next, arg);
      var d := Decode(os, cfg, s[end], next, arg);
      assert ahead[..d.used] == s[end..end + d.used] && ahead[d.used..] == s[end + d.used..];
    }
  }

  /** A scan that reports nothing either has nothing ahead, or meets `--` or an operand. */
  lemma ScanSettles(cfg: Config, ordering: Ordering, os: string, ahead: seq<string>, next: string)
    requires next != "" ==> ahead != [] && !NonOption(ahead[0])
    requires ordering != Permute
    ensures var o := Scan(cfg, ordering, os, ahead, next);
            && (ahead == [] ==> o.events == [] && o.operands == [] && !o.ended)
            && (ahead != [] && o.events == [] ==> o.ended || o.operands != [])
  {
    if ahead != [] {
      if next != "" {
        ScanCall(cfg, ordering, os, ahead, next);
      } else if !NonOption(ahead[0]) && ahead[0] != "--" {
        ScanElement(cfg, ordering, os, ahead);
        ScanCall(cfg, ordering, os, ahead, Body(cfg, ahead[0]));
      }
    }
  }

  lemma WholeInOrder(s: seq<string>, first: nat, end: nat, cfg: Config, ordering: Ordering, os: string, next: string)
    requires first <= end <= |s| && ordering != Permute
    requires next != "" ==> end < |s| && !NonOption(s[end])
    ensures var whole := Whole(s, first, first, end, Scan(cfg, ordering, os, s[end..], next));
            && whole.options + whole.operands == s
            && (end == |s| ==> whole.events == [] && whole.operands == [] && !whole.ended)
            && (end < |s| && whole.events == [] ==> whole.ended || whole.operands != [])
  {
    assert next != "" ==> s[end..][0] == s[end];
    GetoptProperties.ScanInOrder(cfg, ordering, os, s[end..], next);
    ScanSettles(cfg, ordering, os, s[end..], next);
    hide Scan, Whole;
    WholeUnmoved(s, first, end, Scan(cfg, ordering, os, s[end..], next));
  }

  lemma WholeUnmoved(s: seq<string>, first: nat, end: nat, ahead: Outcome)
    requires first <= end <= |s| && ahead.options + ahead.operands == s[end..]
    ensures var whole := Whole(s, first, first, end, ahead);
            && whole.options + whole.operands == s
            && whole.events == ahead.events && whole.operands == ahead.operands && whole.ended == ahead.ended
  {
    assert s[..first] + s[first..end] == s[..end];
    assert s[first..first] + ahead.operands == ahead.operands;
    assert s[..end] + ahead.options + ahead.operands == s[..end] + s[end..];
  }

  /** The position of `c` in `s`, or |s|. */
  method FindChar(s: string, c: char) returns (i: nat)
    ensures i == IndexOf(s, c)
  {
    i := 0;
    while i < |s| && s[i] != c
      invariant i <= |s| && IndexOf(s, c) == i + IndexOf(s[i..], c)
    {
      i := i + 1;
    }
  }

  /** The row a name stands for, found in one pass that stops at an exact name. */
  method LookupLong(table: seq<LongOption>, key: string, longOnly: bool) returns (r: Lookup)
    ensures r == LongMatch(table, key, longOnly)
  {
    var pfound, ambig := |table|, false;
    for p := 0 to |table|
      invariant forall j :: 0 <= j < p ==> !Hit(table, key, true, j)
      invariant pfound < |table| ==> pfound < p && Hit(table, key, false, pfound)
      invariant pfound <= |table|
      invariant forall j :: 0 <= j < p && j < pfound ==> !Hit(table, key, false, j)
      invariant ambig <==>
                (pfound < |table| &&
                 exists j ::
                   && pfound < j < p && Hit(table, key, false, j)
                   && (longOnly || !Agree(table[pfound], table[j])))
    {
      if key <= table[p].name {
        assert Hit(table, key, false, p);
        if |key| == |table[p].name| {
          assert Hit(table, key, true, p);
          return Found(p);
        } else if pfound == |table| {
          pfound := p;
        } else if longOnly || !Agree(table[pfound], table[p]) {
          ambig := true;
        }
      }
    }
    r := if ambig then Ambiguous else if pfound < |table| then Found(pfound) else NotFound;
  }

  class Scanner {
    var optind: nat
    var initialized: bool
    var nextchar: string
    var firstNonopt: nat
    var lastNonopt: nat
    var ordering: Ordering
    /** Whether POSIXLY_CORRECT is in the environment. */
    var posixlyCorrect: bool

    /** Move the operands skipped so far behind the options found since. */
    method Exchange(argv: array<string>)
      requires firstNonopt <= lastNonopt <= optind <= argv.Length
      modifies this`firstNonopt, this`lastNonopt, argv
      ensures argv[..] == Rotated(old(argv[..]), old(firstNonopt), old(lastNonopt), optind)
      ensures firstNonopt == old(firstNonopt) + (optind - old(lastNonopt)) && lastNonopt == optind
    {
      Rotate(argv, firstNonopt, lastNonopt, optind);
      firstNonopt := firstNonopt + (optind - lastNonopt);
      lastNonopt := optind;
    }

    /** Where the scan stands in the sense of `Whole`, with both marks clamped to `optind`. */
    ghost function Progress(argv: seq<string>, ahead: Outcome): Outcome
      reads this
      requires firstNonopt <= lastNonopt && optind <= |argv|
    {
      Whole(argv, Min(firstNonopt, optind), Min(lastNonopt, optind), optind, ahead)
    }

    /** The scanner is between two option elements. */
    ghost predicate BetweenElements(argv: seq<string>)
      reads this
    {
      && nextchar == ""
      && 1 <= firstNonopt <= lastNonopt
      && 1 <= optind <= |argv|
      && (ordering != Permute ==> Min(firstNonopt, optind) == Min(lastNonopt, optind))
    }

    /** The scanner is about to decode `nextchar`, a non-empty end of the element at `optind`. */
    ghost predicate InsideElement(argv: seq<string>)
      reads this
    {
      && 1 <= firstNonopt <= lastNonopt <= optind < |argv|
      && (ordering != Permute ==> firstNonopt == lastNonopt)
      && !NonOption(argv[optind])
      && 0 < |nextchar| < |argv[optind]|
      && nextchar == argv[optind][|argv[optind]| - |nextchar|..]
    }

    /** In Permute mode: put the operands skipped so far behind the options, then skip some more. */
    method SkipOperands(argv: array<string>, ghost cfg: Config, ghost os: string)
      requires ordering == Permute && firstNonopt <= lastNonopt <= optind <= argv.Length
      modifies this`optind, this`firstNonopt, this`lastNonopt, argv
      ensures old(firstNonopt) <= firstNonopt <= lastNonopt == optind <= argv.Length && old(optind) <= optind
      ensures argv[optind..] == old(argv[..])[optind..]
      ensures optind < argv.Length ==> !NonOption(argv[optind])
      ensures Whole(argv[..], firstNonopt, lastNonopt, optind, Scan(cfg, Permute, os, argv[optind..], "")) ==
              old(Whole(argv[..], firstNonopt, lastNonopt, optind, Scan(cfg, Permute, os, argv[optind..], "")))
    {
      hide Scan, Whole, Rotated;
      if firstNonopt != lastNonopt && lastNonopt != optind {
        WholeExchanged(argv[..], firstNonopt, lastNonopt, optind, Scan(cfg, ordering, os, argv[optind..], ""));
        Exchange(argv);
      } else if lastNonopt != optind {
        WholeUnskipped(argv[..], firstNonopt, optind, Scan(cfg, ordering, os, argv[optind..], ""));
        firstNonopt := optind;
      }
      ghost var s, start := argv[..], optind;
      assert s[start..] == old(argv[..])[start..];
      assert Whole(s, firstNonopt, start, start, Scan(cfg, Permute, os, s[start..], "")) ==
             old(Whole(argv[..], firstNonopt, lastNonopt, optind, Scan(cfg, Permute, os, argv[optind..], "")));
      while optind < argv.Length && NonOption(argv[optind])
        invariant start <= optind <= argv.Length
        invariant forall k :: start <= k < optind ==> NonOption(argv[k])
        invariant argv[..] == s
        modifies this`optind
      {
        optind := optind + 1;
      }
      WholeSkipped(s, firstNonopt, start, cfg, os, optind - start);
      lastNonopt := optind;
      assert s[optind..] == s[start..][optind - start..];
    }

    /** The `--` element ends the scan: it joins the options, and the rest is left to the operands. */
    method EndScan(argv: array<string>, ghost cfg: Config, ghost os: string, ghost whole: Outcome)
      requires firstNonopt <= lastNonopt <= optind < argv.Length && argv[optind] == "--"
      requires firstNonopt != lastNonopt ==> lastNonopt == optind
      requires whole == Whole(argv[..], firstNonopt, lastNonopt, optind, Scan(cfg, ordering, os, argv[optind..], ""))
      modifies this`optind, this`firstNonopt, this`lastNonopt, argv
      ensures old(firstNonopt) <= firstNonopt <= lastNonopt == optind == argv.Length
      ensures whole.events == [] && argv[..] == whole.options + whole.operands
      ensures |whole.options| == firstNonopt
    {
      hide Scan, Whole, Rotated;
      WholeEnded(argv[..], firstNonopt, lastNonopt, optind, cfg, ordering, os);
      optind := optind + 1;
      if firstNonopt != lastNonopt && lastNonopt != optind {
        Exchange(argv);
      } else if firstNonopt == lastNonopt {
        RotatedNone(argv[..], firstNonopt, optind);
        firstNonopt := optind;
      }
      lastNonopt := argv.Length;
      optind := argv.Length;
    }

    /** The scan has run out of options: every element is accounted for, and `optind` is at the operands. */
    ghost predicate Finished(argv: seq<string>, whole: Outcome)
      reads this
    {
      && BetweenElements(argv)
      && optind == |whole.options|
      && argv == whole.options + whole.operands
      && whole.events == []
    }

    /**
     The element at `optind` is to be reported on next: an option element about to be decoded
     or, with no text to decode, an operand to be returned in its place.
     */
    ghost predicate AtElement(argv: seq<string>, cfg: Config, os: string, whole: Outcome)
      reads this
    {
      && firstNonopt <= lastNonopt <= optind < |argv|
      && (if nextchar == "" then
            ordering == ReturnInOrder && NonOption(argv[optind]) && BetweenElements(argv)
          else
            InsideElement(argv))
      && whole == Whole(argv, firstNonopt, lastNonopt, optind, Scan(cfg, ordering, os, argv[optind..], nextchar))
    }

    /** Decide about the element at `optind`, with all operands before it skipped if they are to be. */
    method Arrive(argv: array<string>, cfg: Config, ghost os: string, ghost whole: Outcome) returns (done: bool)
      requires nextchar == "" && 1 <= firstNonopt <= lastNonopt <= optind <= argv.Length
      requires if ordering == Permute then
                 lastNonopt == optind && (optind < argv.Length ==> !NonOption(argv[optind]))
               else firstNonopt == lastNonopt
      requires whole == Whole(argv[..], firstNonopt, lastNonopt, optind, Scan(cfg, ordering, os, argv[optind..], ""))
      modifies this`optind, this`nextchar, this`firstNonopt, this`lastNonopt, argv
      ensures if done then Finished(argv[..], whole)
              else AtElement(argv[..], cfg, os, whole) && argv[..] == old(argv[..]) && optind == old(optind)
    {
      hide Scan, Whole, Rotated;
      if optind != argv.Length && argv[optind] == "--" {
        EndScan(argv, cfg, os, whole);
      } else {
        WholeStopped(argv[..], firstNonopt, lastNonopt, optind, cfg, ordering, os);
      }

      if optind == argv.Length {
        if firstNonopt != lastNonopt {
          optind := firstNonopt;
        }
        return true;
      }

      if NonOption(argv[optind]) {
        return ordering == RequireOrder;
      }
      nextchar := if cfg.longopts.Some? && argv[optind][1] == '-' then argv[optind][2..] else argv[optind][1..];
      return false;
    }

    /** Advance to the next element to report on, or to the end of the scan. */
    method Advance(argv: array<string>, cfg: Config, ghost os: string, ghost whole: Outcome) returns (done: bool)
      requires BetweenElements(argv[..])
      requires whole == Progress(argv[..], Scan(cfg, ordering, os, argv[optind..], ""))
      modifies this`optind, this`nextchar, this`firstNonopt, this`lastNonopt, argv
      ensures if done then Finished(argv[..], whole)
              else AtElement(argv[..], cfg, os, whole)
                   && argv[optind..] == old(argv[..])[optind..] && old(optind) <= optind
    {
      hide Scan, Whole, Rotated;
      if lastNonopt > optind {
        lastNonopt := optind;
      }
      if firstNonopt > optind {
        firstNonopt := optind;
      }

      if ordering == Permute {
        SkipOperands(argv, cfg, os);
      }

      done := Arrive(argv, cfg, os, whole);
    }

    // ----- decoding the element at optind

    /** Apply a decoded call: step over the elements it used and keep the text it left. */
    ghost predicate Applied(d: Decoded, optind0: nat)
      reads this
    {
      optind == optind0 + d.used && nextchar == d.next
    }

    /** The next argument, if the element at `optind` is not the last. */
    static function NextArg(argv: seq<string>, optind: nat): Option<string> {
      if optind + 1 < |argv| then Some(argv[optind + 1]) else None
    }

    /** Read `nextchar` as a long option; None when no name in the table matches. */
    method LongOptionCall(argv: array<string>, os: string, table: seq<LongOption>, longOnly: bool)
      returns (r: Option<Event>)
      requires optind < argv.Length && nextchar != ""
      modifies this`optind, this`nextchar
      ensures match old(DecodeLong(os, table, longOnly, nextchar, NextArg(argv[..], optind)))
              case None => r == None && optind == old(optind) && nextchar == old(nextchar)
              case Some(d) => r == Some(d.event) && Applied(d, old(optind))
    {
      var nameend := FindChar(nextchar, '=');
      var pfound := LookupLong(table, nextchar[..nameend], longOnly);
      if pfound == Ambiguous {
        nextchar, optind := "", optind + 1;
        return Some(Complaint(QUESTION, 0));
      }
      if pfound == NotFound {
        return None;
      }
      var i, optarg := pfound.index, None;
      optind := optind + 1;
      if nameend < |nextchar| {
        if table[i].hasArg != 0 {
          optarg := Some(nextchar[nameend + 1..]);
        } else {
          nextchar := "";
          return Some(Complaint(QUESTION, table[i].val));
        }
      } else if table[i].hasArg == 1 {
        if optind < argv.Length {
          optarg, optind := Some(argv[optind]), optind + 1;
        } else {
          nextchar := "";
          return Some(Complaint(if os != "" && os[0] == ':' then COLON else QUESTION, table[i].val));
        }
      }
      nextchar := "";
      if table[i].flag.Some? {
        return Some(Event(0, optarg, None, Some(i), Some((table[i].flag.value, table[i].val))));
      }
      return Some(Event(table[i].val, optarg, None, Some(i), None));
    }

    /** Read the first character of `nextchar` as a short option. */
    method ShortOptionCall(argv: array<string>, os: string) returns (e: Event)
      requires optind < argv.Length && nextchar != "" && NoLongW(os)
      modifies this`optind, this`nextchar
      ensures var d := old(DecodeShort(os, nextchar, NextArg(argv[..], optind)));
              e == d.event && Applied(d, old(optind))
    {
      var c := nextchar[0];
      nextchar := nextchar[1..];
      var temp := FindChar(os, c);
      if nextchar == "" {
        optind := optind + 1;
      }
      if temp == |os| || c == ':' {
        return Complaint(QUESTION, c as int);
      }
      var optarg, code := None, c as int;
      if temp + 1 < |os| && os[temp + 1] == ':' {
        if temp + 2 < |os| && os[temp + 2] == ':' {
          if nextchar != "" {
            optarg := Some(nextchar);
            optind := optind + 1;
          }
        } else if nextchar != "" {
          optarg := Some(nextchar);
          optind := optind + 1;
        } else if optind == argv.Length {
          return Complaint(if os[0] == ':' then COLON else QUESTION, c as int);
        } else {
          optarg := Some(argv[optind]);
          optind := optind + 1;
        }
        nextchar := "";
      }
      return Plain(code, optarg);
    }

    /** Decode the next call from inside the element at `optind`. */
    method ElementCall(argv: array<string>, cfg: Config, os: string) returns (e: Event)
      requires InsideElement(argv[..]) && NoLongW(os)
      modifies this`optind, this`nextchar
      ensures var d := old(Decode(os, cfg, argv[optind], nextchar, NextArg(argv[..], optind)));
              e == d.event && Applied(d, old(optind))
    {
      var elem := argv[optind];
      if cfg.longopts.Some? && (elem[1] == '-' || (cfg.longOnly && (|elem| > 2 || elem[1] !in os))) {
        var r := LongOptionCall(argv, os, cfg.longopts.value, cfg.longOnly);
        if r.Some? {
          return r.value;
        }
        if !cfg.longOnly || elem[1] == '-' || nextchar[0] !in os {
          nextchar, optind := "", optind + 1;
          return Complaint(QUESTION, 0);
        }
      }
      e := ShortOptionCall(argv, os);
    }

    // ----- one call

    /** The call about to be made is the initialising one. */
    predicate Starts()
      reads this
    {
      optind == 0 || !initialized
    }

    /** The scanner may be called with these arguments. */
    ghost predicate Ready(argv: seq<string>)
      reads this
    {
      if Starts() then optind <= |argv|
      else BetweenElements(argv) || InsideElement(argv)
    }

    /** The whole outcome of the scan: what was done so far, and what further calls will report. */
    ghost function Plan(argv: seq<string>, cfg: Config): Outcome
      reads this
      requires argv != [] && Ready(argv)
    {
      if Starts() then
        var start := if optind == 0 then 1 else optind;
        var (order, os) := Opening(cfg.optstring, posixlyCorrect);
        Whole(argv, start, start, start, Scan(cfg, order, os, argv[start..], ""))
      else
        Progress(argv, Scan(cfg, ordering, cfg.optstring, argv[optind..], nextchar))
    }

    /** The ordering the scan follows. */
    function Order(cfg: Config): Ordering
      reads this
    {
      if Starts() then Opening(cfg.optstring, posixlyCorrect).0 else ordering
    }

    /** Unless elements may be permuted, the outcome is about `argv` as it is, and settled when nothing is ahead. */
    lemma PlanInOrder(argv: seq<string>, cfg: Config)
      requires argv != [] && Ready(argv) && Order(cfg) != Permute
      ensures var plan := Plan(argv, cfg);
              && plan.options + plan.operands == argv
              && (optind == |argv| ==> plan.events == [] && plan.operands == [] && !plan.ended)
              && (optind < |argv| && plan.events == [] && (Starts() ==> 1 < |argv|) ==>
                    plan.ended || plan.operands != [])
    {
      hide Scan, Whole;
      if Starts() {
        var start := if optind == 0 then 1 else optind;
        var (order, os) := Opening(cfg.optstring, posixlyCorrect);
        WholeInOrder(argv, start, start, cfg, order, os, "");
      } else {
        WholeInOrder(argv, Min(firstNonopt, optind), optind, cfg, ordering, cfg.optstring, nextchar);
      }
    }

    /** The initialising call fixes the ordering, and takes the mark for it off the option string. */
    method Initialize(optstring: string) returns (os: string)
      requires optind >= 1
      modifies this`firstNonopt, this`lastNonopt, this`nextchar, this`ordering
      ensures firstNonopt == lastNonopt == optind && nextchar == ""
      ensures (ordering, os) == Opening(optstring, posixlyCorrect)
    {
      firstNonopt, lastNonopt, nextchar := optind, optind, "";
      os := optstring;
      if optstring != "" && optstring[0] == '-' {
        ordering, os := ReturnInOrder, optstring[1..];
      } else if optstring != "" && optstring[0] == '+' {
        ordering, os := RequireOrder, optstring[1..];
      } else if posixlyCorrect {
        ordering := RequireOrder;
      } else {
        ordering := Permute;
      }
    }

    /** Some call is still to be reported, and `whole` is the outcome of the scan it belongs to. */
    ghost predicate Pending(argv: seq<string>, cfg: Config, os: string, whole: Outcome)
      reads this
    {
      && argv != []
      && (BetweenElements(argv) || InsideElement(argv))
      && whole == Progress(argv, Scan(cfg, ordering, os, argv[optind..], nextchar))
    }

    /** The report for the element reached, and the scan that is left after it. */
    method Reported(argv: array<string>, cfg: Config, os: string, ghost whole: Outcome) returns (e: Event)
      requires AtElement(argv[..], cfg, os, whole) && NoLongW(os)
      modifies this`optind, this`nextchar
      ensures whole.events != [] && e == whole.events[0]
      ensures Pending(argv[..], cfg, cfg.optstring, whole.(events := whole.events[1..]))
      ensures firstNonopt <= lastNonopt <= optind && old(optind) <= optind
    {
      hide Scan, Whole, Decode, Report;
      ghost var s, end := argv[..], optind;
      ScanReported(cfg, ordering, os, s, optind, nextchar);
      ghost var d := if nextchar == "" then Decoded(Plain(OPERAND, Some(s[end])), "", 1)
                     else Decode(os, cfg, s[end], nextchar, NextArg(s, end));
      WholeReported(s, firstNonopt, lastNonopt, end, d.event, d.used,
                    Scan(cfg, ordering, cfg.optstring, s[end + d.used..], d.next));
      if nextchar == "" {
        // not permuted, and not the end either: describe it to the caller
        e := Plain(OPERAND, Some(argv[optind]));
        optind := optind + 1;
      } else {
        e := ElementCall(argv, cfg, os);
      }
    }

    /** Initialise if this is the first call; `os` is the option string this call goes by. */
    method Begin(argv: array<string>, cfg: Config) returns (os: string)
      requires argv.Length >= 1 && Ready(argv[..]) && NoLongW(cfg.optstring)
      modifies this`optind, this`initialized, this`nextchar, this`firstNonopt, this`lastNonopt, this`ordering
      ensures Pending(argv[..], cfg, os, old(Plan(argv[..], cfg))) && NoLongW(os) && !Starts()
      ensures old(optind) <= optind
      ensures ordering == old(Order(cfg))
    {
      hide Scan, Whole;
      os := cfg.optstring;
      if optind == 0 || !initialized {
        if optind == 0 {
          optind := 1;
        }
        os := Initialize(os);
        initialized := true;
        NoLongWTail(cfg.optstring);
      }
    }

    /** The rest of a call that has begun. */
    method Continue(argv: array<string>, cfg: Config, os: string, ghost whole: Outcome) returns (r: Option<Event>)
      requires Pending(argv[..], cfg, os, whole) && NoLongW(os)
      modifies this`optind, this`nextchar, this`firstNonopt, this`lastNonopt, argv
      ensures match r
              case None => Finished(argv[..], whole)
              case Some(e) =>
                && whole.events != [] && e == whole.events[0]
                && Pending(argv[..], cfg, cfg.optstring, whole.(events := whole.events[1..]))
                && firstNonopt <= lastNonopt <= optind
                && old(optind) <= optind && argv[optind..] == old(argv[..])[optind..]
    {
      hide Scan, Whole;
      if nextchar == "" {
        var done := Advance(argv, cfg, os, whole);
        if done {
          return None;
        }
      }
      ghost var s, reached := argv[..], optind;
      var e := Reported(argv, cfg, os, whole);
      assert argv[optind..] == s[reached..][optind - reached..];
      return Some(e);
    }

    /**
     One call.  It reports the next event of the scan's outcome and leaves the rest of that outcome
     to later calls; or there is no event left, `argv` is the options followed by the operands, and
     `optind` is the index of the first operand.
     */
    method Next(argv: array<string>, cfg: Config) returns (r: Option<Event>)
      requires argv.Length >= 1 ==> Ready(argv[..])
      requires NoLongW(cfg.optstring)
      modifies this`optind, this`initialized, this`nextchar, this`firstNonopt, this`lastNonopt, this`ordering, argv
      ensures argv.Length == 0 ==> r == None && unchanged(this)
      ensures argv.Length >= 1 ==>
                var whole := old(Plan(argv[..], cfg));
                && !Starts() && Ready(argv[..])
                && ordering == old(Order(cfg))
                && match r
                   case None => Finished(argv[..], whole)
                   case Some(e) =>
                     && whole.events != [] && e == whole.events[0]
                     && Plan(argv[..], cfg) == whole.(events := whole.events[1..])
                     && firstNonopt <= lastNonopt <= optind
                     && old(optind) <= optind && argv[optind..] == old(argv[..])[optind..]
    {
      hide Scan, Whole, Decode, Report;
      if argv.Length < 1 {
        return None;
      }
      ghost var whole := Plan(argv[..], cfg);
      var os := Begin(argv, cfg);
      r := Continue(argv, cfg, os, whole);
    }

    /** Call until nothing is left to report, as a client does. */
    method Run(argv: array<string>, cfg: Config) returns (events: seq<Event>)
      requires argv.Length >= 1 && Ready(argv[..]) && NoLongW(cfg.optstring)
      modifies this`optind, this`initialized, this`nextchar, this`firstNonopt, this`lastNonopt, this`ordering, argv
      ensures var whole := old(Plan(argv[..], cfg));
              && events == whole.events
              && argv[..] == whole.options + whole.operands
              && optind == |whole.options|
    {
      hide Scan, Whole, Opening;
      ghost var whole := Plan(argv[..], cfg);
      events := [];
      var r := Next(argv, cfg);
      while r.Some?
        invariant if r.Some? then
                    && events + [r.value] <= whole.events
                    && !Starts() && Ready(argv[..])
                    && Plan(argv[..], cfg) == whole.(events := whole.events[|events| + 1..])
                  else
                    events == whole.events && argv[..] == whole.options + whole.operands && optind == |whole.options|
        decreases |whole.events| - |events|
      {
        events := events + [r.value];
        r := Next(argv, cfg);
      }
    }
  }
}
