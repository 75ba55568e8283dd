/** What a scan's outcome means for the command line it was given. */
module GetoptProperties {
  import opened Prelude
  import opened Getopt

  // ----- the scan is a stable partition

  /** The elements of `s` whose flag is `b`, in their order. */
  function Pick(s: seq<string>, flags: seq<bool>, b: bool): seq<string>
    requires |s| == |flags|
  {
    if s == [] then [] else (if flags[0] == b then [s[0]] else []) + Pick(s[1..], flags[1..], b)
  }

  lemma {:induction false} PickAppend(s: seq<string>, t: seq<string>, f: seq<bool>, g: seq<bool>, b: bool)
    requires |s| == |f| && |t| == |g|
    ensures Pick(s + t, f + g, b) == Pick(s, f, b) + Pick(t, g, b)
  {
    if s == [] {
      assert s + t == t && f + g == g;
    } else {
      assert (s + t)[1..] == s[1..] + t && (f + g)[1..] == f[1..] + g;
      PickAppend(s[1..], t, f[1..], g, b);
      var x := if f[0] == b then [s[0]] else [];
      assert Pick(s + t, f + g, b) == x + Pick(s[1..] + t, f[1..] + g, b);
      assert x + (Pick(s[1..], f[1..], b) + Pick(t, g, b)) == x + Pick(s[1..], f[1..], b) + Pick(t, g, b);
    }
  }

  lemma {:induction false} PickAll(s: seq<string>, flags: seq<bool>, b: bool)
    requires |s| == |flags| && forall k :: 0 <= k < |s| ==> flags[k] == b
    ensures Pick(s, flags, b) == s && Pick(s, flags, !b) == []
  {
    if s != [] {
      PickAll(s[1..], flags[1..], b);
    }
  }

  /**
   Options and operands are a stable partition of the elements scanned: some marking of the
   elements selects exactly the options, and its complement exactly the operands, in order.
   */
  lemma {:induction false} ScanPartitions(cfg: Config, ordering: Ordering, os: string, ahead: seq<string>, next: string)
    returns (isOption: seq<bool>)
    requires next != "" ==> ahead != [] && !NonOption(ahead[0])
    ensures |isOption| == |ahead|
    ensures var o := Scan(cfg, ordering, os, ahead, next);
            o.options == Pick(ahead, isOption, true) && o.operands == Pick(ahead, isOption, false)
    decreases |ahead|, if next != "" then |next| else if ahead == [] then 0 else |ahead[0]| + 1
  {
    hide Decode;
    if next != "" {
      var arg := if |ahead| > 1 then Some(ahead[1]) else None;
      var d := Decode(os, cfg, ahead[0], next, arg);
      DecodeProgress(os, cfg, ahead[0], next, arg);
      var rest := ScanPartitions(cfg, ordering, cfg.optstring, ahead[d.used..], d.next);
      isOption := Marked(ahead, d.used, true, rest);
    } else if ahead == [] {
      isOption := [];
    } else if ahead[0] == "--" {
      PickAll(ahead[1..], seq(|ahead| - 1, _ => false), false);
      isOption := Marked(ahead, 1, true, seq(|ahead| - 1, _ => false));
    } else if NonOption(ahead[0]) {
      match ordering
      case Permute =>
        var rest := ScanPartitions(cfg, ordering, os, ahead[1..], "");
        isOption := Marked(ahead, 1, false, rest);
      case RequireOrder =>
        isOption := seq(|ahead|, _ => false);
        PickAll(ahead, isOption, false);
      case ReturnInOrder =>
        var rest := ScanPartitions(cfg, ordering, cfg.optstring, ahead[1..], "");
        isOption := Marked(ahead, 1, true, rest);
    } else {
      isOption := ScanPartitions(cfg, ordering, os, ahead, Body(cfg, ahead[0]));
    }
  }

  /** Extend a marking by `n` elements in front. */
  lemma Marked(s: seq<string>, n: nat, b: bool, rest: seq<bool>) returns (flags: seq<bool>)
    requires n <= |s| && |rest| == |s| - n
    ensures |flags| == |s|
    ensures Pick(s, flags, b) == s[..n] + Pick(s[n..], rest, b)
    ensures Pick(s, flags, !b) == Pick(s[n..], rest, !b)
  {
    var front := seq(n, _ => b);
    flags := front + rest;
    assert s == s[..n] + s[n..];
    PickAll(s[..n], front, b);
    PickAppend(s[..n], s[n..], front, rest, b);
    PickAppend(s[..n], s[n..], front, rest, !b);
  }

  /** Only Permute mode reorders anything. */
  lemma {:induction false} ScanInOrder(cfg: Config, ordering: Ordering, os: string, ahead: seq<string>, next: string)
    requires next != "" ==> ahead != [] && !NonOption(ahead[0])
    requires ordering != Permute
    ensures var o := Scan(cfg, ordering, os, ahead, next);
            o.options + o.operands == ahead
    decreases |ahead|, if next != "" then |next| else if ahead == [] then 0 else |ahead[0]| + 1
  {
    hide Decode;
    if next != "" {
      var arg := if |ahead| > 1 then Some(ahead[1]) else None;
      var d := Decode(os, cfg, ahead[0], next, arg);
      DecodeProgress(os, cfg, ahead[0], next, arg);
      ScanInOrder(cfg, ordering, cfg.optstring, ahead[d.used..], d.next);
      assert ahead == ahead[..d.used] + ahead[d.used..];
    } else if ahead != [] && ahead[0] != "--" {
      if !NonOption(ahead[0]) {
        ScanInOrder(cfg, ordering, os, ahead, Body(cfg, ahead[0]));
      } else if ordering == ReturnInOrder {
        ScanInOrder(cfg, ordering, cfg.optstring, ahead[1..], "");
        assert ahead == ahead[..1] + ahead[1..];
      }
    }
  }

  /**
   In Permute mode, unless a `--` ends the scan - it is then the last of the options - no operand has
   option syntax.
   */
  lemma {:induction false} PermutedOperands(cfg: Config, os: string, ahead: seq<string>, next: string)
    requires next != "" ==> ahead != [] && !NonOption(ahead[0])
    ensures var o := Scan(cfg, Permute, os, ahead, next);
            if o.ended then o.options != [] && o.options[|o.options| - 1] == "--"
            else forall s <- o.operands :: NonOption(s)
    decreases |ahead|, if next != "" then |next| else if ahead == [] then 0 else |ahead[0]| + 1
  {
    hide Decode;
    if next != "" {
      var arg := if |ahead| > 1 then Some(ahead[1]) else None;
      var d := Decode(os, cfg, ahead[0], next, arg);
      DecodeProgress(os, cfg, ahead[0], next, arg);
      PermutedOperands(cfg, cfg.optstring, ahead[d.used..], d.next);
    } else if ahead != [] && ahead[0] != "--" {
      if NonOption(ahead[0]) {
        PermutedOperands(cfg, os, ahead[1..], "");
      } else {
        PermutedOperands(cfg, os, ahead, Body(cfg, ahead[0]));
      }
    }
  }

  /** In strict order the operands start with one, unless they come after a `--`. */
  lemma {:induction false} StrictOperands(cfg: Config, os: string, ahead: seq<string>, next: string)
    requires next != "" ==> ahead != [] && !NonOption(ahead[0])
    ensures var o := Scan(cfg, RequireOrder, os, ahead, next);
            if o.ended then o.options != [] && o.options[|o.options| - 1] == "--"
            else o.operands != [] ==> NonOption(o.operands[0])
    decreases |ahead|, if next != "" then |next| else if ahead == [] then 0 else |ahead[0]| + 1
  {
    hide Decode;
    if next != "" {
      var arg := if |ahead| > 1 then Some(ahead[1]) else None;
      var d := Decode(os, cfg, ahead[0], next, arg);
      DecodeProgress(os, cfg, ahead[0], next, arg);
      StrictOperands(cfg, cfg.optstring, ahead[d.used..], d.next);
    } else if ahead != [] && ahead[0] != "--" && !NonOption(ahead[0]) {
      StrictOperands(cfg, os, ahead, Body(cfg, ahead[0]));
    }
  }
}
