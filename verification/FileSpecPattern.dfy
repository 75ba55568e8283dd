/** File specifications as patterns for pathnames. */
module FileSpecPattern {
  import opened Prelude
  import opened StringUtils
  import opened FileSpec
  import opened Glob

  function Many(i: Item, n: nat): Pattern {
    if n == 0 then [] else [i] + Many(i, n - 1)
  }

  /** Text, selection and station fields may hold any characters, all others hold digits. */
  function ItemOf(t: FieldType): Item {
    if t == TEXT || t == SELECTED || t == STATION then AnyChar else Digit
  }

  /** A field without a width matches anything. */
  function FieldPattern(len: nat, c: char): Pattern {
    if len == 0 then [Star] else Many(ItemOf(TypeOf(c)), len)
  }

  /** What follows the digits of the field at the start of `fs`, if anything does. */
  function NextChar(fs: string): Option<char>
    requires fs != ""
  {
    var d := DigitCount(fs[1..]) + 1;
    if d == |fs| then None else Some(fs[d])
  }

  function AfterChar(fs: string): (rest: string)
    requires fs != "" && NextChar(fs).Some?
    ensures |rest| < |fs|
  {
    fs[DigitCount(fs[1..]) + 2..]
  }

  /** Every '%' that starts a field is followed by digits, or none, and then by a character. */
  predicate Complete(fs: string)
    decreases |fs|
  {
    if fs == "" then true
    else if fs[0] != '%' then Complete(fs[1..])
    else NextChar(fs).Some? && Complete(AfterChar(fs))
  }

  /** The pattern for a specification; letters that are no field's stand for digits. */
  function PatternOf(fs: string): Pattern
    decreases |fs|
  {
    if fs == "" then []
    else if fs[0] != '%' then [Lit(fs[0])] + PatternOf(fs[1..])
    else if NextChar(fs) == None then []
    else FieldPattern(AsUnsignedLong(fs[1..]), NextChar(fs).value) + PatternOf(AfterChar(fs))
  }

  /** Every field has a known type and, if asked for, a width that is given and kept. */
  predicate Readable(fs: string, explicit: bool)
    decreases |fs|
  {
    if fs == "" then true
    else if fs[0] != '%' then Readable(fs[1..], explicit)
    else
      && Letter(fs).Some?
      && (explicit ==> AsInt(fs[1..]) > 0 && FieldAt(fs, 0).numCh == AsInt(fs[1..]))
      && Readable(AfterField(fs), explicit)
  }

  lemma {:induction false} ReadableAfterText(fs: string, explicit: bool)
    ensures var k := PercentAt(fs);
            && (Readable(fs, explicit) <==> Readable(fs[k..], explicit))
            && PatternOf(fs) == Literal(fs[..k]) + PatternOf(fs[k..])
  {
    hide *;
    if fs != "" && fs[0] != '%' {
      ReadableAfterText(fs[1..], explicit);
      OneOfText(fs, explicit);
      Reassociate([Lit(fs[0])], Literal(fs[1..][..PercentAt(fs[1..])]), PatternOf(fs[PercentAt(fs)..]));
    } else {
      NoText(fs);
    }
  }

  lemma OneOfText(fs: string, explicit: bool)
    requires fs != "" && fs[0] != '%'
    ensures var k := PercentAt(fs[1..]);
            && PercentAt(fs) == k + 1 && fs[k + 1..] == fs[1..][k..]
            && Readable(fs, explicit) == Readable(fs[1..], explicit)
            && PatternOf(fs) == [Lit(fs[0])] + PatternOf(fs[1..])
            && Literal(fs[..k + 1]) == [Lit(fs[0])] + Literal(fs[1..][..k])
  {
    var k := PercentAt(fs[1..]);
    assert fs[..k + 1][0] == fs[0] && fs[..k + 1][1..] == fs[1..][..k];
  }

  lemma NoText(fs: string)
    requires fs == "" || fs[0] == '%'
    ensures PercentAt(fs) == 0 && fs[0..] == fs && Literal(fs[..0]) + PatternOf(fs) == PatternOf(fs)
    ensures fs == "" ==> PatternOf(fs) == []
  {
  }

  lemma LetterIs(fs: string)
    requires fs != "" && Letter(fs).Some?
    ensures var d := DigitCount(fs[1..]) + 1;
            d < |fs| && fs[d] == Letter(fs).value && TypeOf(fs[d]) != UNKNOWN && AfterField(fs) == fs[d + 1..]
  {
  }

  lemma NoSpaceNoSign(c: char)
    requires IsDigit(c) || TypeOf(c) != UNKNOWN
    ensures !IsSpace(c) && c != '-' && c != '+'
  {
  }

  lemma PlainNumber(s: string)
    requires s != "" && !IsSpace(s[0]) && s[0] != '-' && s[0] != '+'
    ensures AsUnsignedLong(s) == AsInt(s)
  {
  }

  /** Where there is a field, both tokenizers see the same width and letter. */
  lemma PatternOfField(fs: string)
    requires fs != "" && fs[0] == '%' && Letter(fs).Some?
    ensures NextChar(fs) == Letter(fs) && AfterChar(fs) == AfterField(fs)
    ensures PatternOf(fs) == FieldPattern(AsInt(fs[1..]), Letter(fs).value) + PatternOf(AfterField(fs))
  {
    LetterIs(fs);
    var d := DigitCount(fs[1..]);
    assert d > 0 ==> IsDigit(fs[1..][0]);
    assert fs[1..][0] == fs[1];
    NoSpaceNoSign(fs[1]);
    PlainNumber(fs[1..]);
    hide TypeOf, AsInt, AsUnsignedLong, FieldPattern, DigitCount;
  }

  lemma {:induction false} ReadableIsComplete(fs: string, explicit: bool)
    requires Readable(fs, explicit)
    ensures Complete(fs)
    decreases |fs|
  {
    hide Letter, FieldAt, AfterField, AsInt, NextChar, AfterChar, PatternOf;
    if fs != "" {
      if fs[0] != '%' {
        ReadableIsComplete(fs[1..], explicit);
      } else {
        PatternOfField(fs);
        ReadableIsComplete(AfterField(fs), explicit);
      }
    }
  }

  /** What can be read is what can be parsed. */
  lemma {:induction false} ReadableIsParsed(fs: string, offset: nat)
    ensures Parse(fs, offset).ok <==> Readable(fs, false)
    decreases |fs|
  {
    hide Letter, FieldAt, AfterField, PatternOf;
    if fs != "" {
      var k := PercentAt(fs);
      if fs[0] != '%' {
        ReadableAfterText(fs, false);
        ReadableIsParsed(fs[k..], offset + k);
      } else if Letter(fs).Some? {
        ReadableIsParsed(AfterField(fs), offset + FieldAt(fs, offset).numCh);
      }
    }
  }

  // ----- in parts

  lemma DigitsBefore(a: string, b: string)
    requires b != "" ==> b[0] == '/'
    ensures DigitCount(a + b) == DigitCount(a)
  {
    var d := DigitCount(a);
    assert a + b == a[..d] + (a[d..] + b);
    DigitCountIs(a[..d], a[d..] + b);
  }

  /** A field does not reach across a slash. */
  lemma FieldBefore(a: string, b: string, offset: nat)
    requires a != "" && a[0] == '%' && (b != "" ==> b[0] == '/')
    ensures Letter(a + b) == Letter(a) && (a + b)[0] == '%' && AsInt((a + b)[1..]) == AsInt(a[1..])
    ensures Letter(a).Some? ==> AfterField(a + b) == AfterField(a) + b && FieldAt(a + b, offset) == FieldAt(a, offset)
  {
    var d := DigitCount(a[1..]);
    assert (a + b)[1..] == a[1..] + b;
    DigitsBefore(a[1..], b);
    assert (a[1..] + b)[..d] == a[1..][..d];
    SlashHasNoType();
    hide TypeOf, DigitCount, Value, Notation, Decimal;
    if d + 1 < |a| {
      assert (a + b)[d + 1] == a[d + 1] && (a + b)[d + 2..] == a[d + 2..] + b;
      assert (a + b)[1] == a[1];
    }
  }

  lemma SlashHasNoType()
    ensures TypeOf('/') == UNKNOWN
  {
  }

  /** A specification can be read up to a slash and from there on. */
  lemma {:induction false} ReadableInParts(a: string, b: string, explicit: bool)
    requires (b != "" ==> b[0] == '/') && Readable(a + b, explicit)
    ensures Readable(a, explicit) && Readable(b, explicit) && PatternOf(a + b) == PatternOf(a) + PatternOf(b)
    decreases |a|
  {
    hide Letter, FieldAt, AfterField, FieldPattern, AsInt, PatternOf;
    NoText("");
    if a == "" {
      assert a + b == b && PatternOf("") + PatternOf(b) == PatternOf(b);
    } else if a[0] != '%' {
      assert (a + b)[0] == a[0] && (a + b)[1..] == a[1..] + b;
      ReadableInParts(a[1..], b, explicit);
      OneOfText(a, explicit);
      OneOfText(a + b, explicit);
      Reassociate([Lit(a[0])], PatternOf(a[1..]), PatternOf(b));
    } else {
      FieldBefore(a, b, 0);
      ReadableInParts(AfterField(a), b, explicit);
      PatternOfField(a);
      PatternOfField(a + b);
      Reassociate(FieldPattern(AsInt(a[1..]), Letter(a).value), PatternOf(AfterField(a)), PatternOf(b));
    }
  }

  // ----- the translation

  lemma {:induction false} ShowLiteral(s: string)
    ensures Show(Literal(s)) == s
  {
    if s != "" {
      ShowLiteral(s[1..]);
      assert Literal(s)[1..] == Literal(s[1..]);
    }
  }

  lemma ShowCons(i: Item, p: Pattern)
    ensures Show([i] + p) == ShowItem(i) + Show(p)
  {
    assert ([i] + p)[1..] == p;
  }

  lemma {:induction false} ShowAppend(p: Pattern, q: Pattern)
    ensures Show(p + q) == Show(p) + Show(q)
  {
    if p == [] {
      assert p + q == q;
    } else {
      hide *;
      var rest := p[1..];
      ShowAppend(rest, q);
      ShowCons(p[0], rest);
      ShowCons(p[0], rest + q);
      Uncons(p, q);
      Reassociate(ShowItem(p[0]), Show(rest), Show(q));
    }
  }

  lemma Uncons<T>(s: seq<T>, t: seq<T>)
    requires s != []
    ensures s == [s[0]] + s[1..] && s + t == [s[0]] + (s[1..] + t)
  {
  }

  lemma {:induction false} ShowMany(n: nat)
    ensures Show(Many(AnyChar, n)) == Repeat('?', n)
  {
    if n > 0 {
      ShowMany(n - 1);
      assert Many(AnyChar, n)[1..] == Many(AnyChar, n - 1);
    }
  }

  lemma {:induction false} ShowMore(i: Item, n: nat)
    ensures Show(Many(i, n + 1)) == Show(Many(i, n)) + ShowItem(i)
  {
    ShowCons(i, Many(i, n));
    if n > 0 {
      ShowMore(i, n - 1);
      ShowCons(i, Many(i, n - 1));
      Reassociate(ShowItem(i), Show(Many(i, n - 1)), ShowItem(i));
    }
  }

  /** The pattern for one field. */
  method TransField(len: nat, c: char) returns (rv: string)
    ensures rv == Show(FieldPattern(len, c))
  {
    LettersOfItems(c);
    if len == 0 {
      assert [Star][1..] == [];
      rv := "*";
    } else if c == 'x' || c == 't' || c == 'n' {
      ShowMany(len);
      rv := Repeat('?', len);
    } else {
      rv := "";
      for i := 0 to len
        invariant rv == Show(Many(Digit, i))
      {
        ShowMore(Digit, i);
        rv := rv + "[0-9]";
      }
    }
  }

  lemma LettersOfItems(c: char)
    ensures ItemOf(TypeOf(c)) == if c == 'x' || c == 't' || c == 'n' then AnyChar else Digit
  {
  }

  lemma {:induction false} CompleteAfterText(fs: string)
    ensures Complete(fs) <==> Complete(fs[PercentAt(fs)..])
  {
    if fs != "" && fs[0] != '%' {
      CompleteAfterText(fs[1..]);
      assert fs[1..][PercentAt(fs) - 1..] == fs[PercentAt(fs)..];
    } else {
      assert fs[0..] == fs;
    }
  }

  lemma CompleteField(fs: string)
    requires fs != "" && fs[0] == '%' && Complete(fs)
    ensures NextChar(fs).Some? && Complete(AfterChar(fs))
    ensures PatternOf(fs) == FieldPattern(AsUnsignedLong(fs[1..]), NextChar(fs).value) + PatternOf(AfterChar(fs))
  {
  }

  /** One more piece of the translation. */
  lemma Translated(fs: string)
    requires Complete(fs)
    ensures var k := PercentAt(fs);
            var rest := fs[k..];
            && Complete(rest)
            && Show(PatternOf(fs)) == fs[..k] + Show(PatternOf(rest))
            && (rest != "" ==>
                 && NextChar(rest).Some? && Complete(AfterChar(rest))
                 && var field := FieldPattern(AsUnsignedLong(rest[1..]), NextChar(rest).value);
                    Show(PatternOf(rest)) == Show(field) + Show(PatternOf(AfterChar(rest))))
  {
    hide *;
    var k := PercentAt(fs);
    var rest := fs[k..];
    CompleteAfterText(fs);
    ReadableAfterText(fs, false);
    ShowLiteral(fs[..k]);
    ShowAppend(Literal(fs[..k]), PatternOf(rest));
    if rest != "" {
      CompleteField(rest);
      ShowAppend(FieldPattern(AsUnsignedLong(rest[1..]), NextChar(rest).value), PatternOf(AfterChar(rest)));
    }
  }

  /** Translate a specification into a pattern. */
  method TransToken(token: string) returns (rv: string)
    requires Complete(token)
    ensures rv == Show(PatternOf(token))
  {
    hide *;
    rv := "";
    var spos := 0;
    assert token[0..] == token;
    ghost var whole := Show(PatternOf(token));
    while true
      invariant 0 <= spos <= |token| && Complete(token[spos..])
      invariant whole == rv + Show(PatternOf(token[spos..]))
      decreases |token| - spos
    {
      TranslatedAt(token, spos);
      var ppos := spos + PercentAt(token[spos..]);
      ghost var later := Show(PatternOf(token[ppos..]));
      Reassociate(rv, token[spos..ppos], later);
      rv := rv + token[spos..ppos];
      if ppos == |token| {
        NothingMore();
        assert token[ppos..] == "" && rv + "" == rv;
        break;
      }
      var fpos := ppos + 1 + DigitCount(token[ppos + 1..]);
      var len := AsUnsignedLong(token[ppos + 1..]);
      var piece := TransField(len, token[fpos]);
      Reassociate(rv, piece, Show(PatternOf(token[fpos + 1..])));
      rv := rv + piece;
      spos := fpos + 1;
    }
  }

  lemma TranslatedAt(token: string, spos: nat)
    requires spos <= |token| && Complete(token[spos..])
    ensures var ppos := spos + PercentAt(token[spos..]);
            && token[ppos..] == token[spos..][ppos - spos..]
            && Show(PatternOf(token[spos..])) == token[spos..ppos] + Show(PatternOf(token[ppos..]))
            && (ppos < |token| ==>
                 var fpos := ppos + 1 + DigitCount(token[ppos + 1..]);
                 && fpos < |token| && Complete(token[fpos + 1..])
                 && var field := FieldPattern(AsUnsignedLong(token[ppos + 1..]), token[fpos]);
                    Show(PatternOf(token[ppos..])) == Show(field) + Show(PatternOf(token[fpos + 1..])))
  {
    hide *;
    var ppos := spos + PercentAt(token[spos..]);
    Translated(token[spos..]);
    assert token[spos..][ppos - spos..] == token[ppos..] && token[spos..][..ppos - spos] == token[spos..ppos];
    if ppos < |token| {
      FieldAtPosition(token, ppos);
    }
  }

  lemma FieldAtPosition(token: string, ppos: nat)
    requires ppos < |token|
    ensures var field, fpos := token[ppos..], ppos + 1 + DigitCount(token[ppos + 1..]);
            && field[1..] == token[ppos + 1..]
            && (NextChar(field).Some? ==>
                  fpos < |token| && NextChar(field) == Some(token[fpos]) && AfterChar(field) == token[fpos + 1..])
  {
    hide *;
    var field, d := token[ppos..], DigitCount(token[ppos + 1..]) + 1;
    CharIs(field);
    assert field[1..] == token[ppos + 1..];
    assert d < |field| ==> field[d + 1..] == token[ppos + d + 1..];
  }

  lemma CharIs(fs: string)
    requires fs != ""
    ensures var d := DigitCount(fs[1..]) + 1;
            if d == |fs| then NextChar(fs) == None
            else d < |fs| && NextChar(fs) == Some(fs[d]) && AfterChar(fs) == fs[d + 1..]
  {
  }

  lemma NothingMore()
    ensures Show(PatternOf("")) == ""
  {
  }

  // ----- when the translation ends

  /**
   The position after one round of the translation, or None when it ends.  Without a character after
   the digits, the search for one gives npos, and the position after that is 0 again.
   */
  function NextPosition(token: string, spos: nat): (r: Option<nat>)
    requires spos <= |token|
    ensures r.Some? ==> r.value <= |token|
  {
    var ppos := spos + PercentAt(token[spos..]);
    if ppos == |token| then None
    else
      var fpos := ppos + 1 + DigitCount(token[ppos + 1..]);
      Some(if fpos == |token| then 0 else fpos + 1)
  }

  /** The translation ends in `n` rounds. */
  predicate EndsIn(token: string, spos: nat, n: nat)
    requires spos <= |token|
    decreases n
  {
    n > 0 &&
    match NextPosition(token, spos)
    case None => true
    case Some(p) => EndsIn(token, p, n - 1)
  }

  /** A round goes on behind the field, or back to the start if the field is not complete. */
  lemma RoundOf(token: string, spos: nat)
    requires spos <= |token|
    ensures var next := NextPosition(token, spos);
            if next == None then Complete(token[spos..])
            else if Complete(token[spos..]) then next.value > spos && Complete(token[next.value..])
            else next.value == 0 || !Complete(token[next.value..])
  {
    hide *;
    var k := PercentAt(token[spos..]);
    var ppos := spos + k;
    var field := token[ppos..];
    NextPositionIs(token, spos);
    CompleteAfterText(token[spos..]);
    assert token[spos..][k..] == field;
    if field == "" {
      NothingIncomplete();
    } else {
      var d := DigitCount(token[ppos + 1..]) + 1;
      assert field[1..] == token[ppos + 1..];
      CompleteFromField(field);
      CharIs(field);
      assert d < |field| ==> field[d + 1..] == token[ppos + d + 1..];
    }
  }

  lemma NothingIncomplete()
    ensures Complete("")
  {
  }

  lemma CompleteFromField(fs: string)
    requires fs != "" && fs[0] == '%'
    ensures Complete(fs) <==> NextChar(fs).Some? && Complete(AfterChar(fs))
  {
  }

  lemma NextPositionIs(token: string, spos: nat)
    requires spos <= |token|
    ensures var ppos := spos + PercentAt(token[spos..]);
            && (ppos == |token| ==> NextPosition(token, spos) == None)
            && (ppos < |token| ==>
                  var fpos := ppos + 1 + DigitCount(token[ppos + 1..]);
                  && token[ppos] == '%' && fpos <= |token|
                  && NextPosition(token, spos) == Some(if fpos == |token| then 0 else fpos + 1))
  {
  }

  lemma {:induction false} CompleteEnds(token: string, spos: nat) returns (n: nat)
    requires spos <= |token| && Complete(token[spos..])
    ensures EndsIn(token, spos, n)
    decreases |token| - spos
  {
    hide Complete;
    RoundOf(token, spos);
    n := 1;
    if NextPosition(token, spos).Some? {
      var m := CompleteEnds(token, NextPosition(token, spos).value);
      n := m + 1;
    }
  }

  lemma {:induction false} IncompleteGoesOn(token: string, spos: nat, n: nat)
    requires spos <= |token| && !Complete(token) && !Complete(token[spos..])
    ensures !EndsIn(token, spos, n)
    decreases n
  {
    hide Complete;
    RoundOf(token, spos);
    assert token[0..] == token;
    if n > 0 {
      IncompleteGoesOn(token, NextPosition(token, spos).value, n - 1);
    }
  }

  /** The translation ends exactly when every field is complete. */
  lemma TranslationEnds(token: string)
    ensures (exists n :: EndsIn(token, 0, n)) <==> Complete(token)
  {
    hide EndsIn, Complete;
    assert token[0..] == token;
    if Complete(token) {
      var n := CompleteEnds(token, 0);
    } else {
      forall n: nat ensures !EndsIn(token, 0, n) {
        IncompleteGoesOn(token, 0, n);
      }
    }
  }

  /** For example, it goes round for ever here, and ends for a letter that no field has. */
  lemma LonePercentGoesRound()
    ensures (forall n :: !EndsIn("abc%", 0, n)) && exists n :: EndsIn("%5q", 0, n)
  {
    TranslationEnds("abc%");
    TranslationEnds("%5q");
    assert "abc%"[1..] == "bc%" && "bc%"[1..] == "c%" && "c%"[1..] == "%" && "%"[1..] == "";
    assert NextChar("%") == None && !Complete("%");
    assert "%5q"[1..] == "5q" && "5q"[1..] == "q" && DigitCount("5q") == 1;
    assert NextChar("%5q") == Some('q') && AfterChar("%5q") == "" && Complete("");
  }

  // ----- the two ways to read a specification

  function ElementPattern(e: Element): Pattern {
    if e.kind == FIXED then Literal(e.field) else Many(ItemOf(e.kind), e.numCh)
  }

  function ElementsPattern(es: seq<Element>): Pattern {
    if es == [] then [] else ElementPattern(es[0]) + ElementsPattern(es[1..])
  }

  lemma ElementsPatternCons(e: Element, es: seq<Element>)
    ensures ElementsPattern([e] + es) == ElementPattern(e) + ElementsPattern(es)
  {
    assert ([e] + es)[1..] == es;
  }

  /** With widths for all fields, the pattern consists of those of the elements. */
  lemma {:induction false} PatternOfElements(fs: string, offset: nat)
    requires Readable(fs, true)
    ensures PatternOf(fs) == ElementsPattern(Parse(fs, offset).elements)
    decreases |fs|
  {
    hide Letter, FieldAt, AfterField, FieldPattern, ElementPattern, ElementsPattern, Readable, PatternOf, PercentAt;
    hide AsInt;
    if fs == "" {
      assert Parse(fs, offset).elements == [];
      NoElements();
    } else if fs[0] != '%' {
      var k := PercentAt(fs);
      PercentIsLater(fs);
      var p := Parse(fs[k..], offset + k);
      ReadableAfterText(fs, true);
      PatternOfElements(fs[k..], offset + k);
      ElementsPatternCons(Element(k, offset, FIXED, fs[..k]), p.elements);
      TextPattern(k, offset, fs[..k]);
    } else {
      ReadableField(fs, offset);
      var e := FieldAt(fs, offset);
      PatternOfElements(AfterField(fs), offset + e.numCh);
      ElementsPatternCons(e, Parse(AfterField(fs), offset + e.numCh).elements);
    }
  }

  lemma NoElements()
    ensures PatternOf("") == [] == ElementsPattern([])
  {
  }

  lemma PercentIsLater(fs: string)
    requires fs != "" && fs[0] != '%'
    ensures PercentAt(fs) > 0
  {
  }

  lemma TextPattern(k: nat, offset: nat, text: string)
    ensures ElementPattern(Element(k, offset, FIXED, text)) == Literal(text)
  {
  }

  lemma ReadableField(fs: string, offset: nat)
    requires fs != "" && fs[0] == '%' && Readable(fs, true)
    ensures Letter(fs).Some? && Readable(AfterField(fs), true)
    ensures PatternOf(fs) == ElementPattern(FieldAt(fs, offset)) + PatternOf(AfterField(fs))
  {
    hide AsInt, Width, Notation, TypeOf, AsUnsignedLong, PatternOf, Many, ItemOf;
    FieldFacts(fs, offset);
    assert FieldAt(fs, offset).numCh == FieldAt(fs, 0).numCh == AsInt(fs[1..]);
    PatternOfField(fs);
  }

  /** What an element allows at its place: its own text, any characters, or digits. */
  predicate Fits(e: Element, s: string, start: bool) {
    if e.kind == FIXED then s == e.field
    else |s| == e.numCh && match ItemOf(e.kind)
         case AnyChar => '/' !in s && (start && s != "" ==> s[0] != '.')
         case _ => AllDigits(s)
  }

  /** Whether a place starts a component of the path. */
  predicate Starts(s: string, k: nat, start: bool)
    requires k <= |s|
  {
    if k == 0 then start else s[k - 1] == '/'
  }

  ghost predicate FitsAt(es: seq<Element>, s: string, start: bool, i: nat)
    requires i < |es|
  {
    var k := TotalWidth(es[..i]);
    k + es[i].numCh <= |s| && Fits(es[i], s[k..k + es[i].numCh], Starts(s, k, start))
  }

  /** The string is as long as the elements, and each element allows what is at its place. */
  ghost predicate FitsAll(es: seq<Element>, s: string, start: bool) {
    |s| == TotalWidth(es) && forall i | 0 <= i < |es| :: FitsAt(es, s, start, i)
  }

  lemma {:induction false} MatchMany(i: Item, n: nat, q: Pattern, s: string, start: bool)
    requires i == AnyChar || i == Digit
    ensures Match(Many(i, n) + q, s, start)
       <==> n <= |s| && (forall k | 0 <= k < n :: One(i, s[k], start && k == 0)) && Match(q, s[n..], start && n == 0)
    decreases n
  {
    if n == 0 {
      assert Many(i, n) + q == q && s[0..] == s;
    } else {
      assert Many(i, n) + q == [i] + (Many(i, n - 1) + q);
      MatchOne(i, Many(i, n - 1) + q, s, start);
      hide Match;
      if s != "" {
        MatchMany(i, n - 1, q, s[1..], false);
        assert n <= |s| ==> s[1..][n - 1..] == s[n..];
        assert forall k | 0 < k < n <= |s| :: s[k] == s[1..][k - 1];
      }
    }
  }

  lemma {:induction false} MatchText(t: string, q: Pattern, s: string, start: bool)
    ensures Match(Literal(t) + q, s, start)
       <==> |t| <= |s| && s[..|t|] == t && Match(q, s[|t|..], if t == "" then start else t[|t| - 1] == '/')
    decreases |t|
  {
    if t == "" {
      assert Literal(t) + q == q && s[0..] == s;
    } else {
      var p := Literal(t[1..]) + q;
      assert Literal(t) == [Lit(t[0])] + Literal(t[1..]);
      Reassociate([Lit(t[0])], Literal(t[1..]), q);
      MatchOne(Lit(t[0]), p, s, start);
      hide *;
      if s != "" {
        MatchText(t[1..], q, s[1..], t[0] == '/');
        StartsWithCons(t, s);
      }
    }
  }

  lemma StartsWithCons(t: string, s: string)
    requires t != "" && s != ""
    ensures |t| <= |s| ==> s[1..][|t| - 1..] == s[|t|..]
    ensures |t| <= |s| ==> (s[..|t|] == t <==> s[0] == t[0] && s[1..][..|t| - 1] == t[1..])
  {
    assert t == [t[0]] + t[1..];
    if |t| <= |s| {
      assert s[..|t|] == [s[0]] + s[1..][..|t| - 1];
    }
  }

  /** One element of the pattern. */
  lemma MatchElement(e: Element, q: Pattern, s: string, start: bool)
    requires (e.kind == FIXED ==> |e.field| == e.numCh) && e.numCh > 0
    ensures Match(ElementPattern(e) + q, s, start)
       <==> var w := e.numCh;
            w <= |s| && Fits(e, s[..w], start) && Match(q, s[w..], Starts(s, w, start))
  {
    hide Match;
    var w := e.numCh;
    if e.kind == FIXED {
      MatchText(e.field, q, s, start);
      assert w <= |s| ==> s[..w][w - 1] == s[w - 1];
    } else {
      var i := ItemOf(e.kind);
      MatchMany(i, w, q, s, start);
      if w <= |s| {
        assert forall k | 0 <= k < w :: s[..w][k] == s[k];
        assert One(i, s[w - 1], start && w == 1) ==> s[w - 1] != '/';
        assert (forall k | 0 <= k < w :: One(i, s[k], start && k == 0)) <==> Fits(e, s[..w], start);
      }
    }
  }

  lemma FitsLater(e: Element, es: seq<Element>, s: string, start: bool, i: nat)
    requires 0 < e.numCh <= |s| && i < |es|
    ensures FitsAt([e] + es, s, start, i + 1) <==> FitsAt(es, s[e.numCh..], Starts(s, e.numCh, start), i)
  {
    hide Fits;
    var all, t, k := [e] + es, s[e.numCh..], TotalWidth(es[..i]);
    assert all[..i + 1] == [e] + es[..i] && all[..i + 1][1..] == es[..i];
    assert all[i + 1] == es[i];
    assert TotalWidth(all[..i + 1]) == e.numCh + k;
    hide TotalWidth;
    if k + es[i].numCh <= |t| {
      assert s[e.numCh + k..e.numCh + k + es[i].numCh] == t[k..k + es[i].numCh];
    }
  }

  lemma FitsCons(e: Element, es: seq<Element>, s: string, start: bool)
    requires e.numCh > 0
    ensures FitsAll([e] + es, s, start)
       <==> e.numCh <= |s| && Fits(e, s[..e.numCh], start) && FitsAll(es, s[e.numCh..], Starts(s, e.numCh, start))
  {
    var all := [e] + es;
    assert all[1..] == es && all[..0] == [] && all[0] == e;
    assert TotalWidth(all) == e.numCh + TotalWidth(es) && TotalWidth(all[..0]) == 0;
    hide Fits, TotalWidth;
    if e.numCh <= |s| {
      forall i | 0 <= i < |es|
        ensures FitsAt(all, s, start, i + 1) <==> FitsAt(es, s[e.numCh..], Starts(s, e.numCh, start), i)
      {
        FitsLater(e, es, s, start, i);
      }
      assert FitsAt(all, s, start, 0) <==> Fits(e, s[..e.numCh], start);
      hide FitsAt;
      if FitsAll(es, s[e.numCh..], Starts(s, e.numCh, start)) && Fits(e, s[..e.numCh], start) {
        forall i | 0 <= i < |all| ensures FitsAt(all, s, start, i) {
          if i > 0 {
            assert FitsAt(es, s[e.numCh..], Starts(s, e.numCh, start), i - 1);
          }
        }
      }
      if FitsAll(all, s, start) {
        forall i | 0 <= i < |es| ensures FitsAt(es, s[e.numCh..], Starts(s, e.numCh, start), i) {
          assert FitsAt(all, s, start, i + 1);
        }
      }
    }
  }

  /** Elements with text of their width, none of them empty. */
  predicate Wide(es: seq<Element>) {
    forall e <- es :: e.numCh > 0 && (e.kind == FIXED ==> |e.field| == e.numCh)
  }

  lemma {:induction false} MatchElements(es: seq<Element>, s: string, start: bool)
    requires Wide(es)
    ensures Match(ElementsPattern(es), s, start) <==> FitsAll(es, s, start)
  {
    hide Match, FitsAll, Fits;
    if es == [] {
      NothingFits(s, start);
    } else {
      var e, rest := es[0], es[1..];
      assert es == [e] + rest;
      MatchElement(e, ElementsPattern(rest), s, start);
      FitsCons(e, rest, s, start);
      if e.numCh <= |s| {
        MatchElements(rest, s[e.numCh..], Starts(s, e.numCh, start));
      }
    }
  }

  lemma NothingFits(s: string, start: bool)
    ensures Match(ElementsPattern([]), s, start) <==> FitsAll([], s, start)
  {
  }

  lemma {:induction false} ExplicitIsWide(fs: string, offset: nat)
    requires Readable(fs, true)
    ensures Wide(Parse(fs, offset).elements)
    decreases |fs|
  {
    hide Letter, FieldAt, AfterField, PatternOf, AsInt;
    if fs != "" {
      if fs[0] != '%' {
        ReadableAfterText(fs, true);
        PercentIsLater(fs);
        ExplicitIsWide(fs[PercentAt(fs)..], offset + PercentAt(fs));
      } else {
        ExplicitWidth(fs, offset);
        ExplicitIsWide(AfterField(fs), offset + FieldAt(fs, offset).numCh);
      }
    }
  }

  lemma ExplicitWidth(fs: string, offset: nat)
    requires fs != "" && fs[0] == '%' && Readable(fs, true)
    ensures Letter(fs).Some? && FieldAt(fs, offset).numCh > 0 && FieldAt(fs, offset).kind != FIXED
    ensures Readable(AfterField(fs), true)
  {
    FieldFacts(fs, offset);
    assert FieldAt(fs, offset).numCh == FieldAt(fs, 0).numCh;
  }

  /**
   When every field has a width, the pattern matches exactly the names that have the fixed text, the
   digits and the other characters where the elements of the specification say.
   */
  lemma PatternFitsElements(fs: string, s: string)
    requires Readable(fs, true)
    ensures var es := Parse(fs, 0).elements;
            && (Match(PatternOf(fs), s, true) <==> FitsAll(es, s, true))
            && forall i | 0 <= i < |es| :: es[i].offset == TotalWidth(es[..i])
  {
    hide *;
    var es := Parse(fs, 0).elements;
    PatternOfElements(fs, 0);
    ExplicitIsWide(fs, 0);
    MatchElements(es, s, true);
    ParseTiles(fs, 0);
    TiledOffsets(es);
  }

  /** What the text of a specification becomes when glob reads the pattern. */
  function ReadPattern(fs: string): Pattern {
    Read(Show(PatternOf(fs)))
  }

  lemma {:induction false} PlainPattern(fs: string)
    requires forall c <- fs :: !Special(c)
    ensures forall i <- PatternOf(fs) :: PlainItem(i)
    decreases |fs|
  {
    hide NextChar, AfterChar, AsUnsignedLong, FieldPattern;
    if fs != "" {
      if fs[0] != '%' {
        PlainPattern(fs[1..]);
      } else if NextChar(fs) != None {
        CharIs(fs);
        PlainPattern(AfterChar(fs));
        PlainField(AsUnsignedLong(fs[1..]), NextChar(fs).value);
      }
    }
  }

  lemma PlainField(len: nat, c: char)
    ensures forall i <- FieldPattern(len, c) :: PlainItem(i)
    ensures PatternSlashes(FieldPattern(len, c)) == 0
  {
    var i := ItemOf(TypeOf(c));
    assert i == AnyChar || i == Digit;
    PlainMany(i, len);
    assert [Star][1..] == [];
  }

  lemma {:induction false} PlainMany(i: Item, n: nat)
    requires i == AnyChar || i == Digit
    ensures forall j <- Many(i, n) :: PlainItem(j)
    ensures PatternSlashes(Many(i, n)) == 0
  {
    if n > 0 {
      PlainMany(i, n - 1);
      SlashesOne(i, Many(i, n - 1));
    }
  }

  /** So does the pattern as glob reads it, if the fixed text has no special characters. */
  lemma TokenizersAgree(fs: string, s: string)
    requires Readable(fs, true) && forall c <- fs :: !Special(c)
    ensures Match(ReadPattern(fs), s, true) <==> FitsAll(Parse(fs, 0).elements, s, true)
  {
    hide *;
    PatternFitsElements(fs, s);
    PlainReads(fs);
  }

  lemma PlainReads(fs: string)
    requires forall c <- fs :: !Special(c)
    ensures ReadPattern(fs) == PatternOf(fs)
  {
    PlainPattern(fs);
    ReadShow(PatternOf(fs));
  }

  lemma TiledOffsets(es: seq<Element>)
    requires Tiled(es, 0)
    ensures forall i | 0 <= i < |es| :: es[i].offset == TotalWidth(es[..i])
  {
  }

  // ----- when the two ways agree

  /** A word that the pattern matches, with n characters for every star. */
  function Word(p: Pattern, n: nat): string {
    if p == [] then ""
    else (match p[0]
          case Lit(c) => [c]
          case AnyChar => "0"
          case Digit => "0"
          case Star => Repeat('0', n)) + Word(p[1..], n)
  }

  function Stars(p: Pattern): nat {
    if p == [] then 0 else (if p[0] == Star then 1 else 0) + Stars(p[1..])
  }

  lemma {:induction false} StarTakes(p: Pattern, n: nat, s: string)
    requires p != [] && p[0] == Star && Match(p[1..], s, false)
    ensures Match(p, Repeat('0', n) + s, false)
    decreases n
  {
    var t := Repeat('0', n) + s;
    if n == 0 {
      assert t == s;
    } else {
      assert t[1..] == Repeat('0', n - 1) + s && t[0] == '0';
      StarTakes(p, n - 1, s);
    }
  }

  lemma {:induction false} WordMatches(p: Pattern, n: nat, start: bool)
    requires n > 0
    ensures Match(p, Word(p, n), start)
    decreases |p|
  {
    if p != [] {
      var w := Word(p[1..], n);
      WordMatches(p[1..], n, p[0] == Lit('/'));
      if p[0] == Star {
        assert Word(p, n)[1..] == Repeat('0', n - 1) + w && Word(p, n)[0] == '0';
        StarTakes(p, n - 1, w);
        StarTakes(p, n, w);
      } else {
        assert Word(p, n)[1..] == w;
      }
    }
  }

  lemma {:induction false} WordLengths(p: Pattern)
    ensures |Word(p, 1)| == |p| && |Word(p, 2)| == |p| + Stars(p)
  {
    if p != [] {
      WordLengths(p[1..]);
    }
  }

  lemma {:induction false} StarsAppend(p: Pattern, q: Pattern)
    ensures Stars(p + q) == Stars(p) + Stars(q)
  {
    if p == [] {
      assert p + q == q;
    } else {
      StarsAppend(p[1..], q);
      assert (p + q)[1..] == p[1..] + q && (p + q)[0] == p[0];
    }
  }

  lemma {:induction false} StarsOfMany(i: Item, n: nat)
    requires i != Star
    ensures Stars(Many(i, n)) == 0 && |Many(i, n)| == n
  {
    if n > 0 {
      StarsOfMany(i, n - 1);
      assert Many(i, n)[1..] == Many(i, n - 1);
    }
  }

  lemma {:induction false} StarsOfLiteral(t: string)
    ensures Stars(Literal(t)) == 0 && |Literal(t)| == |t|
  {
    if t != "" {
      StarsOfLiteral(t[1..]);
      assert Literal(t)[1..] == Literal(t[1..]);
    }
  }

  /** A field has a star if it has no width, and is shorter than the element if its width is not kept. */
  lemma LengthOfField(fs: string, offset: nat)
    requires fs != "" && fs[0] == '%' && Letter(fs).Some?
    ensures var p, e := FieldPattern(AsInt(fs[1..]), Letter(fs).value), FieldAt(fs, offset);
            && (Stars(p) == 0 <==> AsInt(fs[1..]) > 0)
            && (Stars(p) == 0 ==> |p| == AsInt(fs[1..]) <= e.numCh)
  {
    StarsOfMany(ItemOf(TypeOf(Letter(fs).value)), AsInt(fs[1..]));
    assert [Star][1..] == [];
    hide AsInt, TypeOf, Letter, Many;
  }

  lemma TotalCons(e: Element, es: seq<Element>)
    ensures TotalWidth([e] + es) == e.numCh + TotalWidth(es)
  {
    assert ([e] + es)[1..] == es;
  }

  /** The widths are explicit exactly if the pattern has no star and is as long as the elements are wide. */
  lemma {:induction false} ExplicitByLength(fs: string, offset: nat)
    requires Readable(fs, false)
    ensures var p, es := PatternOf(fs), Parse(fs, offset).elements;
            && (Stars(p) == 0 ==> |p| <= TotalWidth(es))
            && (Readable(fs, true) <==> Stars(p) == 0 && |p| == TotalWidth(es))
    decreases |fs|
  {
    hide *;
    if fs == "" {
      NothingByLength(offset);
    } else if fs[0] != '%' {
      var k := PercentAt(fs);
      PercentIsLater(fs);
      ReadableAfterText(fs, false);
      ReadableAfterText(fs, true);
      ExplicitByLength(fs[k..], offset + k);
      TextStep(fs, offset);
      var e := Element(k, offset, FIXED, fs[..k]);
      TotalCons(e, Parse(fs[k..], offset + k).elements);
      StarsAppend(Literal(fs[..k]), PatternOf(fs[k..]));
      StarsOfLiteral(fs[..k]);
    } else {
      ReadableStep(fs, offset);
      var e, rest := FieldAt(fs, offset), AfterField(fs);
      ExplicitByLength(rest, offset + e.numCh);
      PatternOfField(fs);
      FieldStep(fs, offset);
      LengthOfField(fs, offset);
      TotalCons(e, Parse(rest, offset + e.numCh).elements);
      StarsAppend(FieldPattern(AsInt(fs[1..]), Letter(fs).value), PatternOf(rest));
    }
  }

  lemma NothingByLength(offset: nat)
    ensures PatternOf("") == [] && Parse("", offset).elements == [] && Stars([]) == 0 && TotalWidth([]) == 0
    ensures Readable("", true)
  {
  }

  lemma ReadableStep(fs: string, offset: nat)
    requires fs != "" && fs[0] == '%' && Readable(fs, false)
    ensures Letter(fs).Some? && Readable(AfterField(fs), false)
    ensures Readable(fs, true)
       <==> AsInt(fs[1..]) > 0 && FieldAt(fs, offset).numCh == AsInt(fs[1..]) && Readable(AfterField(fs), true)
  {
    assert FieldAt(fs, offset).numCh == FieldAt(fs, 0).numCh;
    hide AsInt, TypeOf, Width, Notation;
  }

  /** glob finds by the written pattern just what fits the elements. */
  ghost predicate Agrees(fs: string) {
    forall s :: Match(ReadPattern(fs), s, true) <==> FitsAll(Parse(fs, 0).elements, s, true)
  }

  lemma FitsInLength(es: seq<Element>, s: string)
    requires FitsAll(es, s, true)
    ensures |s| == TotalWidth(es)
  {
  }

  lemma AgreesAt(fs: string, s: string)
    requires Agrees(fs) && Match(ReadPattern(fs), s, true)
    ensures FitsAll(Parse(fs, 0).elements, s, true) && |s| == TotalWidth(Parse(fs, 0).elements)
  {
    hide Match, FitsAll, ReadPattern, Parse;
    FitsInLength(Parse(fs, 0).elements, s);
  }

  /** Writing and reading a pattern keeps its length, and makes a star of each '*'. */
  lemma {:induction false} RereadLengths(p: Pattern)
    ensures |RereadAll(p)| == |p| && Stars(RereadAll(p)) >= Stars(p)
    ensures Stars(RereadAll(p)) == 0 <==> Stars(p) == 0 && Lit('*') !in p
  {
    if p != [] {
      RereadLengths(p[1..]);
      assert RereadAll(p)[1..] == RereadAll(p[1..]);
    }
  }

  /** A word in which a '0' stands for a '?' does not match the '?'. */
  lemma {:induction false} QuestionIsTaken(p: Pattern, start: bool)
    requires Stars(p) == 0 && Match(p, Word(RereadAll(p), 1), start)
    ensures Lit('?') !in p
    decreases |p|
  {
    if p != [] {
      var w := Word(RereadAll(p), 1);
      assert RereadAll(p)[1..] == RereadAll(p[1..]);
      assert p[0] != Lit('*') ==> w[1..] == Word(RereadAll(p[1..]), 1);
      QuestionIsTaken(p[1..], p[0] == Lit('/'));
    }
  }

  /** A character that belongs to no field is in the pattern just if it is in the specification. */
  lemma {:induction false} TextIsLiteral(fs: string, c: char)
    requires Readable(fs, false) && c != '%' && !IsDigit(c) && TypeOf(c) == UNKNOWN
    ensures c in fs <==> Lit(c) in PatternOf(fs)
    decreases |fs|
  {
    hide Letter, AfterField, FieldAt, AsInt, FieldPattern, PatternOf, TypeOf;
    if fs == "" {
      NoText(fs);
    } else if fs[0] != '%' {
      OneOfText(fs, false);
      TextIsLiteral(fs[1..], c);
    } else {
      PatternOfField(fs);
      TextIsLiteral(AfterField(fs), c);
      FieldLacks(fs, c);
    }
  }

  lemma FieldLacks(fs: string, c: char)
    requires fs != "" && fs[0] == '%' && Letter(fs).Some? && c != '%' && !IsDigit(c) && TypeOf(c) == UNKNOWN
    ensures c in fs <==> c in AfterField(fs)
    ensures Lit(c) !in FieldPattern(AsInt(fs[1..]), Letter(fs).value)
  {
    LetterIs(fs);
    var d := DigitCount(fs[1..]) + 1;
    assert forall i | 1 <= i < d :: fs[1..][i - 1] == fs[i] && fs[i] != c;
    assert fs == fs[..d + 1] + fs[d + 1..] && c !in fs[..d + 1];
    NoLiterals(ItemOf(TypeOf(Letter(fs).value)), AsInt(fs[1..]), c);
  }

  lemma {:induction false} NoLiterals(i: Item, n: nat, c: char)
    requires !i.Lit?
    ensures Lit(c) !in Many(i, n)
  {
    if n > 0 {
      NoLiterals(i, n - 1, c);
    }
  }

  /** With no bracket and no escape in the text. */
  lemma ReadPatternIs(fs: string)
    requires Readable(fs, false) && '[' !in fs && '\\' !in fs
    ensures ReadPattern(fs) == RereadAll(PatternOf(fs))
  {
    hide Readable, PatternOf, Read, Show, TypeOf;
    NoLetters();
    assert '[' in "[\\?*" && '\\' in "[\\?*";
    TextIsLiteral(fs, '[');
    TextIsLiteral(fs, '\\');
    ReadShown(PatternOf(fs));
  }

  lemma NoLetters()
    ensures forall c <- "[\\?*" :: TypeOf(c) == UNKNOWN && !IsDigit(c)
  {
  }

  lemma AgreementIsExplicit(fs: string)
    requires Readable(fs, false) && '[' !in fs && '\\' !in fs && Agrees(fs)
    ensures Readable(fs, true) && '?' !in fs && '*' !in fs
  {
    hide *;
    var p := PatternOf(fs);
    var r := RereadAll(p);
    ReadPatternIs(fs);
    WordMatches(r, 1, true);
    WordMatches(r, 2, true);
    WordLengths(r);
    RereadLengths(p);
    AgreesAt(fs, Word(r, 1));
    AgreesAt(fs, Word(r, 2));
    ExplicitByLength(fs, 0);
    PatternFitsElements(fs, Word(r, 1));
    QuestionIsTaken(p, true);
    NoLetters();
    assert '?' in "[\\?*" && '*' in "[\\?*";
    TextIsLiteral(fs, '?');
    TextIsLiteral(fs, '*');
  }

  /**
   What glob finds by the pattern agrees with the elements exactly when every field has a width that is
   given and kept, and the fixed text has no wildcards.
   */
  lemma AgreeExactlyIfExplicit(fs: string)
    requires Readable(fs, false) && '[' !in fs && '\\' !in fs
    ensures Agrees(fs) <==> Readable(fs, true) && '?' !in fs && '*' !in fs
  {
    hide Readable, Match, ReadPattern, FitsAll, Parse;
    if Readable(fs, true) && '?' !in fs && '*' !in fs {
      forall s ensures Match(ReadPattern(fs), s, true) <==> FitsAll(Parse(fs, 0).elements, s, true) {
        TokenizersAgree(fs, s);
      }
    }
    if Agrees(fs) {
      AgreementIsExplicit(fs);
    }
  }

  /** For example, a '?' in the fixed text is any character for glob, and itself for the elements. */
  lemma QuestionMarksDiffer()
    ensures Readable("a?", true)
    ensures Match(ReadPattern("a?"), "ab", true) && !FitsAll(Parse("a?", 0).elements, "ab", true)
  {
    var fs, p := "a?", PatternOf("a?");
    assert fs[1..] == "?" && "?"[1..] == "" && "ab"[1..] == "b" && "b"[1..] == "";
    assert p == [Lit('a'), Lit('?')] && p[1..] == [Lit('?')] && p[1..][1..] == [];
    ReadPatternIs(fs);
    assert RereadAll(p) == [Lit('a'), AnyChar];
    assert [Lit('a'), AnyChar][1..] == [AnyChar] && [AnyChar][1..] == [];
    PatternFitsElements(fs, "ab");
  }

  /** And a year of two digits is two characters for the pattern, and four for the elements. */
  lemma ShortYearsDiffer()
    ensures Parse("%2Y", 0).ok && TotalWidth(Parse("%2Y", 0).elements) == 4
    ensures Match(ReadPattern("%2Y"), "17", true) && !Match(ReadPattern("%2Y"), "2017", true)
  {
    assert AllDigits("17") && AllDigits("2017") && forall c <- "%2Y" :: !Special(c);
    hide *;
    ShortYearElements();
    ShortYearPattern();
    PlainReads("%2Y");
    TwoDigitsMatch("17");
    TwoDigitsMatch("2017");
  }

  lemma TwoDigitsMatch(s: string)
    requires AllDigits(s)
    ensures Match(Many(Digit, 2), s, true) <==> |s| == 2
  {
    MatchMany(Digit, 2, [], s, true);
    assert Many(Digit, 2) + [] == Many(Digit, 2);
  }

  lemma ShortYearElements()
    ensures Parse("%2Y", 0).ok && TotalWidth(Parse("%2Y", 0).elements) == 4
  {
    var fs := "%2Y";
    FieldOfOneDigit('2', 'Y', "", 0);
    hide Letter, AfterField, FieldAt;
    assert OneDigitField('2', 'Y') + "" == fs;
    FieldStep(fs, 0);
    assert Parse("", 4) == Parsed([], true);
  }

  lemma ShortYearPattern()
    ensures PatternOf("%2Y") == Many(Digit, 2)
  {
    var fs := "%2Y";
    FieldOfOneDigit('2', 'Y', "", 0);
    hide DigitCount, AsInt, Letter, AfterField, AsUnsignedLong, Parse, TotalWidth, Many;
    assert OneDigitField('2', 'Y') + "" == fs;
    PatternOfField(fs);
    assert PatternOf("") == [] && Many(Digit, 2) + [] == Many(Digit, 2);
    assert TypeOf('Y') == FIRST_TIME;
  }

  /** A field whose width is one digit. */
  function OneDigitField(d: char, c: char): string {
    ['%', d, c]
  }

  lemma FieldOfOneDigit(d: char, c: char, rest: string, offset: nat)
    requires IsDigit(d) && TypeOf(c) != UNKNOWN
    ensures var fs := OneDigitField(d, c) + rest;
            && Letter(fs) == Some(c) && AfterField(fs) == rest && AsInt(fs[1..]) == DigitValue(d)
            && FieldAt(fs, offset).numCh == Width(c, DigitValue(d)) && FieldAt(fs, offset).kind == TypeOf(c)
  {
    var fs := OneDigitField(d, c) + rest;
    LettersAreNoDigits(c);
    DigitCountIs([d], [c] + rest);
    assert fs[1..] == [d] + ([c] + rest) && fs[1..][..1] == [d] && fs[3..] == rest;
    hide TypeOf, DigitCount, Notation;
    assert [d][..0] == "" && Value([d]) == DigitValue(d);
  }

  // ----- the types of the fields

  function TypesIn(fs: string): set<FieldType>
    decreases |fs|
  {
    if fs == "" then {}
    else if fs[0] != '%' then TypesIn(fs[1..])
    else if Letter(fs) == None then {}
    else {TypeOf(Letter(fs).value)} + TypesIn(AfterField(fs))
  }

  lemma {:induction false} TypesAfterText(fs: string)
    ensures TypesIn(fs) == TypesIn(fs[PercentAt(fs)..])
  {
    if fs != "" && fs[0] != '%' {
      TypesAfterText(fs[1..]);
      assert fs[1..][PercentAt(fs) - 1..] == fs[PercentAt(fs)..];
    } else {
      assert fs[0..] == fs;
    }
  }

  lemma FieldTypesCons(e: Element, es: seq<Element>)
    ensures FieldTypes([e] + es) == (if e.kind == FIXED then {} else {e.kind}) + FieldTypes(es)
  {
    assert e in [e] + es && forall e' <- es :: e' in [e] + es;
  }

  lemma {:induction false} TypesAreIn(fs: string, offset: nat)
    ensures FieldTypes(Parse(fs, offset).elements) == TypesIn(fs)
    decreases |fs|
  {
    hide Letter, FieldAt, AfterField, FieldTypes, PercentAt, TypesIn;
    if fs == "" {
      NoTypes(offset);
    } else if fs[0] != '%' {
      var k := PercentAt(fs);
      PercentIsLater(fs);
      TypesAfterText(fs);
      TypesAreIn(fs[k..], offset + k);
      FieldTypesCons(Element(k, offset, FIXED, fs[..k]), Parse(fs[k..], offset + k).elements);
    } else if Letter(fs) == None {
      NoTypes(offset);
      NoTypeIn(fs);
    } else {
      var e := FieldAt(fs, offset);
      FieldFacts(fs, offset);
      TypeFirst(fs, offset);
      TypesAreIn(AfterField(fs), offset + e.numCh);
      FieldTypesCons(e, Parse(AfterField(fs), offset + e.numCh).elements);
    }
  }

  lemma NoTypes(offset: nat)
    ensures FieldTypes([]) == {} == TypesIn("") && Parse("", offset).elements == []
  {
  }

  lemma NoTypeIn(fs: string)
    requires fs != "" && fs[0] == '%' && Letter(fs) == None
    ensures TypesIn(fs) == {}
  {
  }

  lemma TypeFirst(fs: string, offset: nat)
    requires fs != "" && fs[0] == '%' && Letter(fs).Some?
    ensures TypesIn(fs) == {FieldAt(fs, offset).kind} + TypesIn(AfterField(fs))
  {
  }

  /** The fields before a slash and those after it. */
  lemma {:induction false} TypesInParts(a: string, b: string, explicit: bool)
    requires (b != "" ==> b[0] == '/') && Readable(a + b, explicit)
    ensures TypesIn(a + b) == TypesIn(a) + TypesIn(b)
    decreases |a|
  {
    hide Letter, FieldAt, AfterField, AsInt;
    if a == "" {
      assert a + b == b;
    } else if a[0] != '%' {
      assert (a + b)[0] == a[0] && (a + b)[1..] == a[1..] + b;
      TypesInParts(a[1..], b, explicit);
    } else {
      FieldBefore(a, b, 0);
      TypesInParts(AfterField(a), b, explicit);
      Union({TypeOf(Letter(a).value)}, TypesIn(AfterField(a)), TypesIn(b));
    }
  }

  /** Without its '%', a field is text. */
  lemma FieldAsText(fs: string, explicit: bool)
    requires fs != "" && fs[0] == '%' && Readable(fs, explicit)
    ensures Letter(fs).Some? && Readable(fs[1..], explicit) && TypesIn(fs[1..]) == TypesIn(AfterField(fs))
    ensures TypesIn(fs[1..]) <= TypesIn(fs)
  {
    LetterIs(fs);
    FieldText(fs);
    var d := DigitCount(fs[1..]) + 1;
    TextBefore(fs[1..d + 1], fs[d + 1..], explicit);
  }

  lemma {:induction false} TextBefore(text: string, fs: string, explicit: bool)
    requires '%' !in text
    ensures Readable(text + fs, explicit) <==> Readable(fs, explicit)
    ensures TypesIn(text + fs) == TypesIn(fs)
  {
    if text == "" {
      assert text + fs == fs;
    } else {
      TextBefore(text[1..], fs, explicit);
      assert (text + fs)[1..] == text[1..] + fs && (text + fs)[0] == text[0];
    }
  }

  /** What can be read has no signs before its widths. */
  lemma {:induction false} ReadableIsUnsigned(fs: string, explicit: bool)
    requires Readable(fs, explicit)
    ensures UnsignedWidths(fs)
    decreases |fs|
  {
    hide Letter, AfterField, FieldAt, AsInt, UnsignedWidths;
    if fs == "" {
      NoWidths();
    } else if fs[0] != '%' {
      ReadableIsUnsigned(fs[1..], explicit);
      UnsignedCons(fs);
    } else {
      ReadableIsUnsigned(AfterField(fs), explicit);
      UnsignedField(fs);
    }
  }

  lemma NoWidths()
    ensures UnsignedWidths("")
  {
  }

  lemma UnsignedCons(fs: string)
    requires fs != "" && UnsignedWidths(fs[1..]) && (fs[0] == '%' && |fs| > 1 ==> fs[1] != '-')
    ensures UnsignedWidths(fs)
  {
    var rest := fs[1..];
    forall i | 0 <= i < |fs| - 1 ensures !(fs[i] == '%' && fs[i + 1] == '-') {
      if i > 0 {
        assert fs[i] == rest[i - 1] && fs[i + 1] == rest[i];
      }
    }
  }

  lemma {:induction false} UnsignedText(text: string, fs: string)
    requires '%' !in text && UnsignedWidths(fs)
    ensures UnsignedWidths(text + fs)
  {
    if text == "" {
      assert text + fs == fs;
    } else {
      UnsignedText(text[1..], fs);
      assert (text + fs)[1..] == text[1..] + fs && (text + fs)[0] == text[0];
      UnsignedCons(text + fs);
    }
  }

  lemma UnsignedField(fs: string)
    requires fs != "" && fs[0] == '%' && Letter(fs).Some? && UnsignedWidths(AfterField(fs))
    ensures UnsignedWidths(fs)
  {
    FieldText(fs);
    LetterIs(fs);
    var d := DigitCount(fs[1..]) + 1;
    UnsignedText(fs[1..d + 1], fs[d + 1..]);
    DashHasNoType();
    assert fs[1..][0] == fs[1];
    UnsignedCons(fs);
  }

  /** After its '%' a field has digits and a letter. */
  lemma FieldText(fs: string)
    requires fs != "" && fs[0] == '%' && Letter(fs).Some?
    ensures var d := DigitCount(fs[1..]) + 1;
            d < |fs| && '%' !in fs[1..d + 1] && fs[1..] == fs[1..d + 1] + fs[d + 1..]
  {
    LetterIs(fs);
    var d := DigitCount(fs[1..]) + 1;
    LettersAreNoDigits(fs[d]);
    assert forall i | 1 <= i <= d :: fs[1..][i - 1] == fs[i] && fs[i] != '%';
  }

  lemma DashHasNoType()
    ensures TypeOf('-') == UNKNOWN
  {
  }

  lemma ExplicitIsReadable(fs: string)
    requires Readable(fs, true)
    ensures Readable(fs, false)
    decreases |fs|
  {
    hide Letter, AfterField, FieldAt, AsInt;
    if fs != "" {
      if fs[0] != '%' {
        ExplicitIsReadable(fs[1..]);
      } else {
        ExplicitIsReadable(AfterField(fs));
      }
    }
  }
}
