/**
 Pattern matching for pathnames: '?', '*' and [0-9] never match a slash, and do not match a leading
 period, as in section 2.13 of the Shell & Utilities volume of IEEE Std 1003.1.
 */
module Glob {
  import opened StringUtils

  datatype Item = Lit(c: char) | AnyChar | Digit | Star

  type Pattern = seq<Item>

  const DIGITS: string := "[0-9]"

  predicate Special(c: char) {
    c == '?' || c == '*' || c == '[' || c == '\\'
  }

  function ShowItem(i: Item): string {
    match i
    case Lit(c) => [c]
    case AnyChar => "?"
    case Digit => DIGITS
    case Star => "*"
  }

  function Show(p: Pattern): string {
    if p == [] then "" else ShowItem(p[0]) + Show(p[1..])
  }

  /** The pattern that a string denotes; no other bracket expressions and no escapes are expected. */
  function Read(s: string): Pattern {
    if s == "" then []
    else if s[0] == '?' then [AnyChar] + Read(s[1..])
    else if s[0] == '*' then [Star] + Read(s[1..])
    else if StartsWith(s, DIGITS) then [Digit] + Read(s[|DIGITS|..])
    else [Lit(s[0])] + Read(s[1..])
  }

  predicate PlainItem(i: Item) {
    i.Lit? ==> !Special(i.c)
  }

  /** What an item is once it has been written and read: '?' and '*' do not stay characters. */
  function Reread(i: Item): Item {
    if i == Lit('?') then AnyChar else if i == Lit('*') then Star else i
  }

  function RereadAll(p: Pattern): Pattern {
    if p == [] then [] else [Reread(p[0])] + RereadAll(p[1..])
  }

  /** No bracket and no escape among the characters. */
  predicate Legible(i: Item) {
    i.Lit? ==> i.c != '[' && i.c != '\\'
  }

  lemma {:induction false} ReadShown(p: Pattern)
    requires forall i <- p :: Legible(i)
    ensures Read(Show(p)) == RereadAll(p)
  {
    if p != [] {
      ReadShown(p[1..]);
      ReadShownItem(p[0], Show(p[1..]));
    }
  }

  lemma ReadShownItem(i: Item, s: string)
    requires Legible(i)
    ensures Read(ShowItem(i) + s) == [Reread(i)] + Read(s)
  {
    var t := ShowItem(i) + s;
    assert t[|ShowItem(i)|..] == s && t[..|ShowItem(i)|] == ShowItem(i);
    assert t[0] == ShowItem(i)[0];
    if i.Lit? {
      assert !StartsWith(t, DIGITS) by {
        assert t[..1] != DIGITS[..1];
        assert |t| >= |DIGITS| ==> t[..|DIGITS|][..1] == t[..1];
      }
    }
  }

  /** Without special characters a pattern reads back as itself. */
  lemma ReadShow(p: Pattern)
    requires forall i <- p :: PlainItem(i)
    ensures Read(Show(p)) == p
  {
    ReadShown(p);
    RereadPlain(p);
  }

  lemma {:induction false} RereadPlain(p: Pattern)
    requires forall i <- p :: PlainItem(i)
    ensures RereadAll(p) == p
  {
    if p != [] {
      RereadPlain(p[1..]);
      assert PlainItem(p[0]) && Reread(p[0]) == p[0];
    }
  }

  /** `start` says that the string starts a component of the path. */
  predicate Match(p: Pattern, s: string, start: bool)
    decreases |p| + |s|
  {
    if p == [] then s == ""
    else match p[0]
      case Lit(c) => s != "" && s[0] == c && Match(p[1..], s[1..], c == '/')
      case AnyChar => s != "" && Wild(s[0], start) && Match(p[1..], s[1..], false)
      case Digit => s != "" && IsDigit(s[0]) && Match(p[1..], s[1..], false)
      case Star =>
        if start then s != "" && Wild(s[0], true) && (Match(p[1..], s, false) || Match(p, s[1..], false))
        else Match(p[1..], s, false) || (s != "" && s[0] != '/' && Match(p, s[1..], false))
  }

  /** What a wildcard matches. */
  predicate Wild(c: char, start: bool) {
    c != '/' && !(start && c == '.')
  }

  /** The first k characters are for a star, and the rest is for the pattern behind it. */
  predicate Splits(p: Pattern, s: string, k: int) {
    0 <= k <= |s| && '/' !in s[..k] && Match(p, s[k..], false)
  }

  lemma SplitsLater(p: Pattern, s: string)
    ensures Splits(p, s, 0) <==> Match(p, s, false)
    ensures forall k | k > 0 :: Splits(p, s, k) <==> s != "" && s[0] != '/' && Splits(p, s[1..], k - 1)
    ensures forall k :: Splits(p, s, k) ==> k >= 0
  {
    assert s[0..] == s && s[..0] == "";
    hide Match;
    forall k | k > 0 ensures Splits(p, s, k) <==> s != "" && s[0] != '/' && Splits(p, s[1..], k - 1) {
      if k <= |s| {
        assert s[1..][k - 1..] == s[k..] && s[..k] == [s[0]] + s[1..][..k - 1];
      }
    }
  }

  /** A star matches any characters but slashes, or none; at the start of a component none is not enough. */
  lemma {:induction false} StarMatches(p: Pattern, s: string, start: bool)
    ensures Match([Star] + p, s, start)
       <==> (start ==> s != "" && s[0] != '/' && s[0] != '.') && exists k :: Splits(p, s, k)
    decreases |s|
  {
    MatchStar(p, s, start);
    SplitsLater(p, s);
    hide Match, Splits;
    if s != "" {
      StarMatches(p, s[1..], false);
      SplitsLater(p, s[1..]);
    }
    if exists k :: Splits(p, s, k) {
      var k :| Splits(p, s, k);
      assert k > 0 ==> s != "" && Splits(p, s[1..], k - 1);
    }
    if s != "" && s[0] != '/' && exists k :: Splits(p, s[1..], k) {
      var k :| Splits(p, s[1..], k);
      assert Splits(p, s, k + 1) <==> Splits(p, s[1..], k + 1 - 1);
    }
  }

  function Literal(s: string): Pattern {
    if s == "" then [] else [Lit(s[0])] + Literal(s[1..])
  }

  // ----- slashes

  function Slashes(s: string): nat {
    if s == "" then 0 else (if s[0] == '/' then 1 else 0) + Slashes(s[1..])
  }

  function PatternSlashes(p: Pattern): nat {
    if p == [] then 0 else (if p[0] == Lit('/') then 1 else 0) + PatternSlashes(p[1..])
  }

  /** Where the slash after the first n is, or the end. */
  function Cut(s: string, n: nat): (k: nat)
    ensures k <= |s|
    ensures k < |s| ==> s[k] == '/'
  {
    if s == "" then 0
    else if s[0] != '/' then 1 + Cut(s[1..], n)
    else if n == 0 then 0 else 1 + Cut(s[1..], n - 1)
  }

  /** The part of the path before the slash after the first n. */
  function Level(s: string, n: nat): string {
    s[..Cut(s, n)]
  }

  lemma {:induction false} MatchSlashes(p: Pattern, s: string, start: bool)
    requires Match(p, s, start)
    ensures Slashes(s) == PatternSlashes(p)
    decreases |p| + |s|
  {
    if p != [] {
      if p[0] != Star {
        MatchSlashes(p[1..], s[1..], p[0] == Lit('/'));
      } else if Match(p[1..], s, false) {
        MatchSlashes(p[1..], s, false);
      } else {
        MatchSlashes(p, s[1..], false);
      }
    }
  }

  /** `s` matches `p` up to the cut and `q` from there on. */
  predicate InParts(p: Pattern, q: Pattern, s: string, start: bool) {
    var k := Cut(s, PatternSlashes(p));
    Match(p, s[..k], start) && Match(q, s[k..], false)
  }

  /** A path that matches up to a slash of the pattern matches in two parts, and in one way only. */
  lemma {:induction false} MatchInParts(p: Pattern, q: Pattern, s: string, start: bool)
    requires q != [] && q[0] == Lit('/')
    ensures Match(p + q, s, start) <==> InParts(p, q, s, start)
    decreases |p| + |s|
  {
    if p == [] {
      assert p + q == q;
    } else {
      hide Match, InParts;
      var rest := p[1..];
      assert p == [p[0]] + rest && p + q == [p[0]] + (rest + q);
      if s != "" {
        MatchInParts(rest, q, s[1..], p[0] == Lit('/'));
      }
      if p[0] == Star {
        MatchInParts(rest, q, s, false);
        if s != "" {
          MatchInParts(p, q, s[1..], false);
        }
        MatchStar(rest + q, s, start);
        InPartsStar(rest, q, s, start);
      } else {
        MatchOne(p[0], rest + q, s, start);
        InPartsOne(p[0], rest, q, s, start);
      }
    }
  }

  /** What an item other than a star matches. */
  predicate One(i: Item, c: char, start: bool)
    requires i != Star
  {
    match i
    case Lit(d) => c == d
    case AnyChar => Wild(c, start)
    case Digit => IsDigit(c)
  }

  lemma MatchOne(i: Item, p: Pattern, s: string, start: bool)
    requires i != Star
    ensures Match([i] + p, s, start) <==> s != "" && One(i, s[0], start) && Match(p, s[1..], i == Lit('/'))
  {
    assert ([i] + p)[1..] == p;
  }

  lemma MatchStar(p: Pattern, s: string, start: bool)
    ensures Match([Star] + p, s, start)
       <==> (start ==> s != "" && Wild(s[0], true))
            && (Match(p, s, false) || (s != "" && s[0] != '/' && Match([Star] + p, s[1..], false)))
  {
    assert ([Star] + p)[1..] == p;
  }

  lemma SlashesOne(i: Item, p: Pattern)
    ensures PatternSlashes([i] + p) == PatternSlashes(p) + if i == Lit('/') then 1 else 0
  {
    assert ([i] + p)[1..] == p;
  }

  lemma InPartsOne(i: Item, p: Pattern, q: Pattern, s: string, start: bool)
    requires i != Star && (q != [] && q[0] == Lit('/'))
    ensures InParts([i] + p, q, s, start) <==> s != "" && One(i, s[0], start) && InParts(p, q, s[1..], i == Lit('/'))
  {
    SlashesOne(i, p);
    var k := Cut(s, PatternSlashes([i] + p));
    MatchOne(i, p, s[..k], start);
    hide Match;
    if s != "" {
      if k > 0 {
        FirstOfCut(s, k);
      }
      if One(i, s[0], start) {
        assert k == 1 + Cut(s[1..], PatternSlashes(p));
      }
    }
  }

  lemma FirstOfCut(s: string, k: nat)
    requires 0 < k <= |s|
    ensures s[..k][0] == s[0] && s[..k][1..] == s[1..][..k - 1] && s[1..][k - 1..] == s[k..]
  {
  }

  lemma InPartsStar(p: Pattern, q: Pattern, s: string, start: bool)
    ensures InParts([Star] + p, q, s, start)
       <==> (start ==> s != "" && Wild(s[0], true))
            && (InParts(p, q, s, false) || (s != "" && s[0] != '/' && InParts([Star] + p, q, s[1..], false)))
  {
    SlashesOne(Star, p);
    var k := Cut(s, PatternSlashes(p));
    MatchStar(p, s[..k], start);
    hide Match;
    if s != "" && k > 0 {
      FirstOfCut(s, k);
    }
  }

  lemma {:induction false} MatchLiteral(t: string, s: string, start: bool)
    ensures Match(Literal(t), s, start) <==> s == t
    ensures PatternSlashes(Literal(t)) == Slashes(t)
    decreases |t|
  {
    if t != "" {
      assert Literal(t)[1..] == Literal(t[1..]);
      if s != "" {
        MatchLiteral(t[1..], s[1..], t[0] == '/');
      } else {
        MatchLiteral(t[1..], s, false);
      }
    }
  }

  lemma {:induction false} CutTwice(s: string, n: nat, m: nat)
    requires n <= m
    ensures Cut(s, n) <= Cut(s, m) && Cut(Level(s, m), n) == Cut(s, n)
    ensures Level(Level(s, m), n) == Level(s, n)
  {
    if s != "" {
      var k := Cut(s, m);
      if k > 0 {
        assert s[..k][0] == s[0] && s[..k][1..] == s[1..][..k - 1];
      }
      if s[0] != '/' {
        CutTwice(s[1..], n, m);
      } else if n > 0 {
        CutTwice(s[1..], n - 1, m - 1);
      }
    }
  }
}
