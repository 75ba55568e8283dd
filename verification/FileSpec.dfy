/**
 File specifications: names with fields such as %4Y in them.  `Parse` says which elements a
 specification has; the class finds them by consuming a copy of the string.
 */
module FileSpec {
  import opened Prelude
  import opened StringUtils

  // ----- the types of fields, in the order in which they are compared

  const UNKNOWN: FieldType := 0
  const STATION: FieldType := 1
  const SELECTED: FieldType := 4
  const VERSION: FieldType := 6
  const FIXED: FieldType := 7
  const TEXT: FieldType := 9
  const FIRST_TIME: FieldType := 10
  const END: nat := 29

  type FieldType = t: nat | t <= END

  /** The letter of each type; an unknown type, fixed text and the end of the list have none. */
  const LETTERS: string := "-nrptIv-kxymdHMSfGFgQwjsZzUuC-"

  /** The letter of a type; fixed text has the empty name. */
  function NameOf(t: FieldType): Option<string> {
    if t == UNKNOWN || t == END then None
    else if t == FIXED then Some("")
    else Some([LETTERS[t]])
  }

  function TypeOf(c: char): FieldType {
    match c
    case 'n' => 1 case 'r' => 2 case 'p' => 3 case 't' => 4 case 'I' => 5 case 'v' => 6
    case 'k' => 8 case 'x' => 9
    case 'Y' => 10 case 'y' => 10 case 'm' => 11 case 'd' => 12 case 'H' => 13 case 'M' => 14
    case 'S' => 15 case 'f' => 16 case 'G' => 17 case 'F' => 18 case 'g' => 19 case 'Q' => 20
    case 'w' => 21 case 'j' => 22 case 's' => 23 case 'Z' => 24 case 'z' => 25 case 'U' => 26
    case 'u' => 27 case 'C' => 28 case 'c' => 28
    case _ => UNKNOWN
  }

  /** The type of the name, or None where the original has an exception. */
  function TypeNamed(name: string): (t: Option<FieldType>) {
    if |name| == 1 && TypeOf(name[0]) != UNKNOWN then Some(TypeOf(name[0])) else None
  }

  /** A name leads back to its type, except for the empty one. */
  lemma NamesAreTypes(t: FieldType)
    requires t != FIXED
    ensures NameOf(t).Some? ==> TypeNamed(NameOf(t).value) == Some(t)
  {
  }

  /** A letter is the name of its type, but Y and c are second names. */
  lemma TypesAreNamed(c: char)
    requires TypeOf(c) != UNKNOWN
    ensures NameOf(TypeOf(c)) == Some([if c == 'Y' then 'y' else if c == 'c' then 'C' else c])
  {
  }

  /** The letters in the order of their types, before fixed text and after it; the times begin with the year. */
  lemma TypesAreInOrder()
    ensures var first := "nrptIv";
            forall i | 0 <= i < |first| :: TypeOf(first[i]) == i + 1 < FIXED
    ensures var later := "kxymdHMSfGFgQwjsZzUuC";
            forall i | 0 <= i < |later| ::
              TypeOf(later[i]) == FIXED + i + 1 && (i >= 2 <==> TypeOf(later[i]) >= FIRST_TIME)
    ensures TypeOf('Y') == TypeOf('y') && TypeOf('c') == TypeOf('C')
  {
  }

  lemma LettersAreNoDigits(c: char)
    requires TypeOf(c) != UNKNOWN
    ensures TypeOf(c) != FIXED && TypeOf(c) != END && c != '%' && c != '/' && !IsDigit(c)
  {
  }

  // ----- elements

  /** Width and place of a field in a name, and its text: the fixed characters or the field's own notation. */
  datatype Element = Element(numCh: nat, offset: nat, kind: FieldType, field: string)

  /** The elements up to the first error, if there is one. */
  datatype Parsed = Parsed(elements: seq<Element>, ok: bool)

  /** Where the first '%' is. */
  function PercentAt(s: string): (n: nat)
    ensures n <= |s| && '%' !in s[..n]
    ensures n < |s| ==> s[n] == '%'
  {
    if s == "" || s[0] == '%' then 0 else 1 + PercentAt(s[1..])
  }

  /** The width of a field with letter `c`, where 0 means that none is given. */
  function Width(c: char, given: nat): nat {
    if c == 'x' then given
    else if c == 'Y' && given < 4 then 4
    else if given == 0 then 1 else given
  }

  /** A field as it is written: a leading zero may stand before the width. */
  function Notation(zero: bool, width: nat, c: char): string {
    "%" + (if zero then "0" else "") + Decimal(width) + [c]
  }

  /** The letter of the field at the start of `fs`, if there is one of a known type. */
  function Letter(fs: string): Option<char>
    requires fs != ""
  {
    var d := DigitCount(fs[1..]) + 1;
    if d == |fs| || TypeOf(fs[d]) == UNKNOWN then None else Some(fs[d])
  }

  function FieldAt(fs: string, offset: nat): Element
    requires fs != "" && Letter(fs).Some?
  {
    var c := Letter(fs).value;
    var w := Width(c, AsInt(fs[1..]));
    Element(w, offset, TypeOf(c), Notation(fs[1] == '0', w, c))
  }

  function AfterField(fs: string): (rest: string)
    requires fs != "" && Letter(fs).Some?
    ensures |rest| < |fs|
  {
    fs[DigitCount(fs[1..]) + 2..]
  }

  function Parse(fs: string, offset: nat): Parsed
    decreases |fs|
  {
    if fs == "" then Parsed([], true)
    else if fs[0] != '%' then
      var k := PercentAt(fs);
      var rest := Parse(fs[k..], offset + k);
      Parsed([Element(k, offset, FIXED, fs[..k])] + rest.elements, rest.ok)
    else if Letter(fs) == None then Parsed([], false)
    else
      var e := FieldAt(fs, offset);
      var rest := Parse(AfterField(fs), offset + e.numCh);
      Parsed([e] + rest.elements, rest.ok)
  }

  function TotalWidth(es: seq<Element>): nat {
    if es == [] then 0 else es[0].numCh + TotalWidth(es[1..])
  }

  /** The types of the fields, fixed text aside. */
  function FieldTypes(es: seq<Element>): set<FieldType> {
    set e <- es | e.kind != FIXED :: e.kind
  }

  // ----- every specification

  /** The elements lie one after the other, and fixed text is whole. */
  ghost predicate Tiled(es: seq<Element>, offset: nat) {
    && (forall i | 0 <= i < |es| :: es[i].offset == offset + TotalWidth(es[..i]))
    && (forall i | 0 <= i < |es| && es[i].kind == FIXED ::
          && 0 < |es[i].field| == es[i].numCh && '%' !in es[i].field
          && (i + 1 < |es| ==> es[i + 1].kind != FIXED))
    && forall e <- es :: UNKNOWN < e.kind < END
  }

  lemma TiledCons(e: Element, es: seq<Element>)
    requires Tiled(es, e.offset + e.numCh) && UNKNOWN < e.kind < END
    requires e.kind == FIXED ==> 0 < |e.field| == e.numCh && '%' !in e.field && (es != [] ==> es[0].kind != FIXED)
    ensures Tiled([e] + es, e.offset)
  {
    var more := [e] + es;
    forall i | 0 <= i < |more| ensures more[i].offset == e.offset + TotalWidth(more[..i]) {
      if i > 0 {
        assert more[..i] == [e] + es[..i - 1] && more[..i][1..] == es[..i - 1];
      }
    }
  }

  lemma FieldFacts(fs: string, offset: nat)
    requires fs != "" && Letter(fs).Some?
    ensures var e := FieldAt(fs, offset);
            e.offset == offset && UNKNOWN < e.kind < END && e.kind != FIXED
  {
    LettersAreNoDigits(Letter(fs).value);
  }

  /** Elements tile the name; no two adjacent ones are fixed. */
  lemma {:induction false} ParseTiles(fs: string, offset: nat)
    ensures Tiled(Parse(fs, offset).elements, offset)
    ensures fs != "" && fs[0] == '%' && Parse(fs, offset).elements != [] ==> Parse(fs, offset).elements[0].kind != FIXED
    decreases |fs|
  {
    hide Letter, FieldAt, AfterField, Tiled;
    if fs == "" {
      TiledNone(offset);
    } else if fs[0] != '%' {
      var k := PercentAt(fs);
      var rest := fs[k..];
      ParseTiles(rest, offset + k);
      TiledCons(Element(k, offset, FIXED, fs[..k]), Parse(rest, offset + k).elements);
    } else if Letter(fs) == None {
      TiledNone(offset);
    } else {
      var e := FieldAt(fs, offset);
      FieldFacts(fs, offset);
      ParseTiles(AfterField(fs), offset + e.numCh);
      TiledCons(e, Parse(AfterField(fs), offset + e.numCh).elements);
    }
  }

  lemma TiledNone(offset: nat)
    ensures Tiled([], offset)
  {
  }

  /** The pieces that `f` makes of the elements, in order. */
  function Concat(es: seq<Element>, f: Element -> string): string {
    if es == [] then "" else f(es[0]) + Concat(es[1..], f)
  }

  /** The texts of all elements, which make a specification again. */
  function Print(es: seq<Element>): string {
    Concat(es, (e: Element) => e.field)
  }

  /** Equal but for the texts of fields that are not fixed. */
  ghost predicate SameShape(es: seq<Element>, es': seq<Element>) {
    && |es| == |es'|
    && forall i | 0 <= i < |es| ::
         && es[i].kind == es'[i].kind && es[i].offset == es'[i].offset && es[i].numCh == es'[i].numCh
         && (es[i].kind == FIXED ==> es[i].field == es'[i].field)
  }

  lemma ParseFixed(text: string, rest: string, offset: nat)
    requires text != "" && '%' !in text && (rest != "" ==> rest[0] == '%')
    ensures var p := Parse(rest, offset + |text|);
            Parse(text + rest, offset) == Parsed([Element(|text|, offset, FIXED, text)] + p.elements, p.ok)
  {
    hide Letter, FieldAt, AfterField;
    PercentAfter(text, rest);
    assert (text + rest)[..|text|] == text && (text + rest)[|text|..] == rest;
    assert (text + rest)[0] == text[0];
  }

  lemma {:induction false} PercentAfter(text: string, rest: string)
    requires '%' !in text && (rest != "" ==> rest[0] == '%')
    ensures PercentAt(text + rest) == |text|
  {
    if text == "" {
      assert text + rest == rest;
    } else {
      PercentAfter(text[1..], rest);
      assert (text + rest)[1..] == text[1..] + rest && (text + rest)[0] == text[0];
    }
  }

  /** A field is found again in its notation. */
  lemma FieldOfNotation(zero: bool, width: nat, c: char, rest: string, offset: nat)
    requires TypeOf(c) != UNKNOWN && Width(c, width) == width
    ensures var fs := Notation(zero, width, c) + rest;
            && fs[0] == '%' && Letter(fs) == Some(c)
            && AfterField(fs) == rest
            && FieldAt(fs, offset) == Element(width, offset, TypeOf(c), Notation(zero || width == 0, width, c))
  {
    hide *;
    LettersAreNoDigits(c);
    var digits := (if zero then "0" else "") + Decimal(width);
    NumberAgain(zero, width, [c] + rest);
    NotationParts(digits, c, rest);
    NotationIs(zero, width, c);
    FieldFromParts(Notation(zero, width, c) + rest, |digits|, c, rest, width, zero || width == 0, offset);
  }

  lemma NotationIs(zero: bool, width: nat, c: char)
    ensures Notation(zero, width, c) == "%" + ((if zero then "0" else "") + Decimal(width)) + [c]
  {
    hide Decimal;
  }

  /** The field that a string starts with, from what its parts are. */
  lemma FieldFromParts(fs: string, d: nat, c: char, rest: string, width: nat, zero: bool, offset: nat)
    requires d + 1 < |fs| && DigitCount(fs[1..]) == d && AsInt(fs[1..]) == width
    requires fs[d + 1] == c && TypeOf(c) != UNKNOWN && Width(c, width) == width && fs[d + 2..] == rest
    requires (fs[1] == '0') == zero
    ensures Letter(fs) == Some(c) && AfterField(fs) == rest
    ensures FieldAt(fs, offset) == Element(width, offset, TypeOf(c), Notation(zero, width, c))
  {
    hide DigitCount, AsInt, TypeOf, Width, Notation;
  }

  lemma NotationParts(digits: string, c: char, rest: string)
    requires digits != ""
    ensures var fs := "%" + digits + [c] + rest;
            && fs[0] == '%' && fs[1..] == digits + ([c] + rest)
            && fs[|digits| + 1] == c && fs[|digits| + 2..] == rest && fs[1] == (digits + ([c] + rest))[0]
  {
    var fs := "%" + digits + [c] + rest;
    assert fs == "%" + (digits + ([c] + rest));
  }

  lemma NumberAgain(zero: bool, width: nat, rest: string)
    requires rest != "" && !IsDigit(rest[0])
    ensures var digits := (if zero then "0" else "") + Decimal(width);
            && DigitCount(digits + rest) == |digits| && AsInt(digits + rest) == width
            && ((digits + rest)[0] == '0' <==> zero || width == 0)
  {
    var digits := (if zero then "0" else "") + Decimal(width);
    LeadingZero(Decimal(width));
    ValueOfDecimal(width);
    FirstDigit(width);
    DigitCountIs(digits, rest);
    hide Decimal;
    assert (digits + rest)[..|digits|] == digits;
    if !zero {
      assert digits == Decimal(width);
    }
    assert (digits + rest)[0] == digits[0];
  }

  lemma {:induction false} FirstDigit(n: nat)
    ensures Decimal(n)[0] == '0' <==> n == 0
  {
    if n >= 10 {
      FirstDigit(n / 10);
    }
  }

  /**
   A field is a '%', digits or none, and a letter.  Without digits, or with a number 0, it is one character
   wide; but text is then as wide as it is, and a year with 'Y' has at least four characters.
   */
  lemma FieldIsRead(digits: string, c: char, rest: string, offset: nat)
    requires AllDigits(digits) && !IsDigit(c)
    ensures var fs, n := "%" + digits + [c] + rest, Value(digits);
            if TypeOf(c) == UNKNOWN then Parse(fs, offset) == Parsed([], false)
            else
              var w := if c == 'x' then n else if c == 'Y' then (if n < 4 then 4 else n) else if n == 0 then 1 else n;
              var text := (if digits != "" && digits[0] == '0' then "%0" else "%") + Decimal(w) + [c];
              var p := Parse(rest, offset + w);
              Parse(fs, offset) == Parsed([Element(w, offset, TypeOf(c), text)] + p.elements, p.ok)
    ensures Parse("%" + digits, offset) == Parsed([], false)
  {
    hide *;
    FieldWithoutLetter(digits, offset);
    WidthIs(c, Value(digits));
    FieldInParts(digits, c, rest);
    FieldOfParts(digits, c, rest, offset);
    FieldStep("%" + digits + [c] + rest, offset);
  }

  lemma WidthIs(c: char, n: nat)
    ensures Width(c, n)
         == if c == 'x' then n else if c == 'Y' then (if n < 4 then 4 else n) else if n == 0 then 1 else n
  {
  }

  lemma FieldInParts(digits: string, c: char, rest: string)
    requires AllDigits(digits)
    ensures var fs := "%" + digits + [c] + rest;
            && fs[0] == '%' && fs[1..] == digits + ([c] + rest)
            && fs[|digits| + 1] == c && fs[|digits| + 2..] == rest
            && (fs[1] == '0' <==> if digits == "" then c == '0' else digits[0] == '0')
    ensures !IsDigit(c) ==>
              DigitCount(digits + ([c] + rest)) == |digits| && AsInt(digits + ([c] + rest)) == Value(digits)
  {
    var fs := "%" + digits + [c] + rest;
    assert fs == "%" + (digits + ([c] + rest));
    assert (digits + ([c] + rest))[..|digits|] == digits;
    if !IsDigit(c) {
      DigitCountIs(digits, [c] + rest);
    }
  }

  lemma FieldWithoutLetter(digits: string, offset: nat)
    requires AllDigits(digits)
    ensures Parse("%" + digits, offset) == Parsed([], false)
  {
    DigitCountIs(digits, "");
    assert digits + "" == digits && ("%" + digits)[1..] == digits;
  }

  lemma FieldOfParts(digits: string, c: char, rest: string, offset: nat)
    requires AllDigits(digits) && !IsDigit(c)
    ensures var fs := "%" + digits + [c] + rest;
            && (TypeOf(c) == UNKNOWN <==> Letter(fs) == None)
            && (TypeOf(c) != UNKNOWN ==>
                  var w := Width(c, Value(digits));
                  var text := (if digits != "" && digits[0] == '0' then "%0" else "%") + Decimal(w) + [c];
                  AfterField(fs) == rest && FieldAt(fs, offset) == Element(w, offset, TypeOf(c), text))
  {
    var fs, n := "%" + digits + [c] + rest, Value(digits);
    FieldInParts(digits, c, rest);
    hide DigitCount, AsInt, TypeOf, Width, Value, Decimal;
    assert "%" + "0" == "%0" && "%" + "" == "%";
  }

  lemma WidthTwice(c: char, given: nat)
    ensures Width(c, Width(c, given)) == Width(c, given)
  {
  }

  /** A specification that is printed and parsed again keeps its types, offsets and widths. */
  lemma {:induction false} ParseAfterPrint(fs: string, offset: nat)
    requires Parse(fs, offset).ok
    ensures var p := Parse(fs, offset);
            var p' := Parse(Print(p.elements), offset);
            p'.ok && SameShape(p.elements, p'.elements)
    ensures var es := Parse(fs, offset).elements;
            fs != "" && fs[0] == '%' ==> Print(es) != "" && Print(es)[0] == '%'
    decreases |fs|
  {
    hide Letter, FieldAt, AfterField, Notation, TypeOf, Width, SameShape, PercentAt, Print;
    PrintNone();
    if fs == "" {
      assert Parse(fs, offset) == Parsed([], true);
    } else if fs[0] != '%' {
      var k := PercentAt(fs);
      var p := Parse(fs[k..], offset + k);
      var e := Element(k, offset, FIXED, fs[..k]);
      ParseAfterPrint(fs[k..], offset + k);
      PrintCons(e, p.elements);
      ParseFixed(fs[..k], Print(p.elements), offset);
      SameShapeCons(e, e, p.elements, Parse(Print(p.elements), offset + k).elements);
    } else {
      var c, e := Letter(fs).value, FieldAt(fs, offset);
      var p := Parse(AfterField(fs), offset + e.numCh);
      ParseAfterPrint(AfterField(fs), offset + e.numCh);
      PrintCons(e, p.elements);
      FieldFacts(fs, offset);
      FieldIsNotation(fs, offset);
      var rest := Print(p.elements);
      FieldOfNotation(fs[1] == '0', e.numCh, c, rest, offset);
      ParseOfNotation(e.field + rest, e, rest, offset);
      SameShapeCons(e, FieldAt(e.field + rest, offset), p.elements, Parse(rest, offset + e.numCh).elements);
    }
  }

  lemma ParseOfNotation(fs: string, e: Element, rest: string, offset: nat)
    requires fs != "" && fs[0] == '%' && Letter(fs).Some?
    requires AfterField(fs) == rest && FieldAt(fs, offset).numCh == e.numCh
    ensures var p := Parse(rest, offset + e.numCh);
            Parse(fs, offset) == Parsed([FieldAt(fs, offset)] + p.elements, p.ok)
  {
    hide Letter, FieldAt, AfterField;
    assert fs != "" && fs[0] == '%' && Letter(fs) != None;
  }

  lemma PrintNone()
    ensures Print([]) == "" && Parse("", 0).ok && forall offset :: Parse("", offset) == Parsed([], true)
    ensures SameShape([], [])
  {
  }

  lemma SameShapeCons(e: Element, e': Element, es: seq<Element>, es': seq<Element>)
    requires SameShape(es, es')
    requires e.kind == e'.kind && e.offset == e'.offset && e.numCh == e'.numCh
    requires e.kind == FIXED ==> e.field == e'.field
    ensures SameShape([e] + es, [e'] + es')
  {
  }

  lemma PrintCons(e: Element, es: seq<Element>)
    ensures Print([e] + es) == e.field + Print(es)
  {
    assert ([e] + es)[1..] == es;
  }

  lemma FieldIsNotation(fs: string, offset: nat)
    requires fs != "" && Letter(fs).Some?
    ensures var c, e := Letter(fs).value, FieldAt(fs, offset);
            && |fs| > 1 && TypeOf(c) != UNKNOWN && Width(c, e.numCh) == e.numCh
            && e == Element(e.numCh, offset, TypeOf(c), Notation(fs[1] == '0', e.numCh, c))
  {
    WidthTwice(Letter(fs).value, AsInt(fs[1..]));
  }

  // ----- names

  /** Pieces as wide as their elements lie at the elements' offsets. */
  lemma {:induction false} PieceAt(es: seq<Element>, f: Element -> string, i: nat)
    requires i <= |es| && forall e <- es :: |f(e)| == e.numCh
    ensures |Concat(es, f)| == TotalWidth(es) && TotalWidth(es[..i]) <= TotalWidth(es)
    ensures i < |es| ==> TotalWidth(es[..i]) + es[i].numCh <= TotalWidth(es)
    ensures i < |es| ==> Concat(es, f)[TotalWidth(es[..i])..][..es[i].numCh] == f(es[i])
  {
    if es != [] {
      var head, rest := f(es[0]), es[1..];
      if i == 0 {
        PieceAt(rest, f, 0);
        assert Concat(es, f) == head + Concat(rest, f);
      } else {
        PieceAt(rest, f, i - 1);
        assert es[..i][1..] == rest[..i - 1];
        var w := TotalWidth(rest[..i - 1]);
        assert Concat(es, f)[|head| + w..] == Concat(rest, f)[w..];
      }
    }
  }

  /** The search string: fixed text, and a '?' for every other character. */
  function SearchPiece(e: Element): string {
    if e.kind == FIXED then e.field else Repeat('?', e.numCh)
  }

  function SearchString(es: seq<Element>): string {
    Concat(es, SearchPiece)
  }

  lemma SearchStringHasText(es: seq<Element>, i: nat)
    requires Tiled(es, 0) && i < |es|
    ensures var s := SearchString(es);
            && |s| == TotalWidth(es) && es[i].offset + es[i].numCh <= |s|
            && s[es[i].offset..][..es[i].numCh] == if es[i].kind == FIXED then es[i].field else Repeat('?', es[i].numCh)
  {
    PieceAt(es, SearchPiece, i);
  }

  // ----- names made from values

  type Values = map<FieldType, string>

  /** What stands for an element in a name: its value if there is one, or else its own text. */
  function Shown(e: Element, values: Values): string {
    if e.kind !in values then e.field
    else if e.kind != TEXT then RightJustify(values[e.kind], e.numCh, '0')
    else if e.numCh == 0 then values[TEXT]
    else LeftJustify(values[TEXT], e.numCh)
  }

  function ShownWith(values: Values): Element -> string {
    (e: Element) => Shown(e, values)
  }

  function Rendered(es: seq<Element>, values: Values): string {
    Concat(es, ShownWith(values))
  }

  // ----- fields of a name

  datatype Error = UnknownType | NoSuchField | OutOfRange

  /** The first element of the type. */
  function First(es: seq<Element>, t: FieldType): (i: nat)
    ensures i <= |es| && (i < |es| ==> es[i].kind == t)
    ensures forall j | 0 <= j < i :: es[j].kind != t
  {
    if es == [] || es[0].kind == t then 0 else 1 + First(es[1..], t)
  }

  /** std::string::substr, which fails only if the offset is beyond the end. */
  function Substring(s: string, offset: nat, n: nat): Result<string, Error> {
    if offset > |s| then Err(OutOfRange) else Ok(s[offset..][..Min(n, |s| - offset)])
  }

  function Extract(es: seq<Element>, name: string, t: FieldType): Result<string, Error> {
    var i := First(es, t);
    if t == UNKNOWN || t == END then Err(UnknownType)
    else if i == |es| then Err(NoSuchField)
    else Substring(name, es[i].offset, es[i].numCh)
  }

  /** Values for every field, and all of them of a width. */
  predicate Covers(es: seq<Element>, values: Values) {
    && FIXED !in values
    && forall e <- es :: e.kind != FIXED ==> e.kind in values && (e.kind == TEXT ==> e.numCh > 0)
  }

  lemma {:induction false} ConcatLacks(es: seq<Element>, f: Element -> string, c: char)
    requires forall e <- es :: c !in f(e)
    ensures c !in Concat(es, f)
  {
    if es != [] {
      ConcatLacks(es[1..], f, c);
    }
  }

  /**
   From a name made with values for all fields, extracting a field gives its value, justified to
   the width of the first such field.  `printTime` changes nothing in a name without a '%'.
   */
  lemma ExtractAfterToString(es: seq<Element>, values: Values, printTime: string -> string, t: FieldType)
    requires Tiled(es, 0) && Covers(es, values) && First(es, t) < |es| && t != FIXED
    requires forall k <- values :: '%' !in values[k]
    requires forall s: string :: '%' !in s ==> printTime(s) == s
    ensures var w := es[First(es, t)].numCh;
            var justified := if t == TEXT then LeftJustify(values[t], w) else RightJustify(values[t], w, '0');
            Extract(es, printTime(Rendered(es, values)), t) == Ok(justified)
  {
    hide *;
    var f := ShownWith(values);
    forall e | e in es ensures '%' !in f(e) && |f(e)| == e.numCh {
      ShownFits(es, values, e);
    }
    ConcatLacks(es, f, '%');
    PieceAt(es, f, First(es, t));
    ExtractPiece(es, values, t);
  }

  /** What stands for an element has its width, and no '%' comes in. */
  lemma ShownFits(es: seq<Element>, values: Values, e: Element)
    requires Tiled(es, 0) && Covers(es, values) && e in es
    requires forall k <- values :: '%' !in values[k]
    ensures ShownWith(values)(e) == Shown(e, values) && '%' !in Shown(e, values) && |Shown(e, values)| == e.numCh
  {
    if e.kind == FIXED {
      var i :| 0 <= i < |es| && es[i] == e;
    } else {
      assert '%' !in values[e.kind];
    }
  }

  /** Extraction finds the piece of the first element of the type. */
  lemma ExtractPiece(es: seq<Element>, values: Values, t: FieldType)
    requires Tiled(es, 0) && Covers(es, values) && First(es, t) < |es| && t != FIXED
    ensures Rendered(es, values) == Concat(es, ShownWith(values))
    ensures var e, f := es[First(es, t)], ShownWith(values);
            forall s: string ::
              |s| == TotalWidth(es) && e.offset + e.numCh <= |s| && s[e.offset..][..e.numCh] == f(e) ==>
                Extract(es, s, t) == Ok(f(e))
    ensures var e := es[First(es, t)];
            && e.offset == TotalWidth(es[..First(es, t)])
            && ShownWith(values)(e)
            == if t == TEXT then LeftJustify(values[t], e.numCh) else RightJustify(values[t], e.numCh, '0')
  {
    hide Concat, LeftJustify, RightJustify, TotalWidth;
    assert es[First(es, t)] in es;
  }

  // ----- the class

  /** No width has a minus sign. */
  predicate UnsignedWidths(fs: string) {
    forall i | 0 <= i < |fs| - 1 :: !(fs[i] == '%' && fs[i + 1] == '-')
  }

  lemma TextStep(fs: string, offset: nat)
    ensures var k := PercentAt(fs);
            var p := Parse(fs[k..], offset + k);
            Parse(fs, offset) == if k == 0 then p else Parsed([Element(k, offset, FIXED, fs[..k])] + p.elements, p.ok)
  {
    if PercentAt(fs) == 0 {
      assert fs[0..] == fs;
    }
  }

  /** What is left of the string when zeros and number are stripped, and what that says of the field. */
  lemma FieldOf(fs: string, offset: nat)
    requires fs != "" && fs[0] == '%'
    ensures var n := AsInt(fs[1..]);
            var rest := StripLeading(StripLeading(fs[1..], "0"), Decimal(if n == 0 then 1 else n));
            var t := TypeNamed(if rest == "" then "" else rest[..1]);
            && (Letter(fs) == None <==> t == None)
            && (t != None ==>
                 && rest != "" && AfterField(fs) == rest[1..]
                 && var w := if rest[0] == 'x' then n
                             else if rest[0] == 'Y' && n < 4 then 4
                             else if n == 0 then 1 else n;
                    var zero := if fs[1..][0] == '0' then "%0" else "%";
                    FieldAt(fs, offset) == Element(w, offset, t.value, zero + Decimal(w) + [rest[0]]))
    ensures fs[..1] == "%" && fs[..1] + "0" == "%0"
  {
    var d := DigitCount(fs[1..]);
    assert fs[1..] == fs[1..][..d] + fs[1..][d..];
    StripNumber(fs[1..][..d], fs[1..][d..]);
    assert fs[1..][d..] == fs[d + 1..];
    hide StripLeading, Decimal, DigitCount, AsInt, TypeOf;
    if Letter(fs) != None {
      assert fs[d + 1..][1..] == fs[d + 2..];
      assert "%" + "" == "%" && "%" + "0" == "%0";
    }
  }

  lemma FieldStep(fs: string, offset: nat)
    requires fs != "" && fs[0] == '%'
    ensures Parse(fs, offset)
         == if Letter(fs) == None then Parsed([], false)
            else
              var p := Parse(AfterField(fs), offset + FieldAt(fs, offset).numCh);
              Parsed([FieldAt(fs, offset)] + p.elements, p.ok)
  {
  }

  /** A specification, and the types known before it is parsed. */
  datatype Progress = Progress(fileSpec: string, types: set<FieldType>)

  /** The state between elements, with `fs` still to be parsed. */
  ghost predicate Parsing(start: Progress, es: seq<Element>, types: set<FieldType>, fs: string, offset: nat) {
    var p := Parse(fs, offset);
    && Parse(start.fileSpec, 0) == Parsed(es + p.elements, p.ok)
    && types == start.types + FieldTypes(es)
  }

  /** The state at the end. */
  ghost predicate Ended(start: Progress, es: seq<Element>, types: set<FieldType>, ok: bool) {
    Parsed(es, ok) == Parse(start.fileSpec, 0) && types == start.types + FieldTypes(es)
  }

  lemma EndedIs(start: Progress, es: seq<Element>, types: set<FieldType>, ok: bool)
    requires Ended(start, es, types, ok)
    ensures Parsed(es, ok) == Parse(start.fileSpec, 0) && types == start.types + FieldTypes(es)
  {
  }

  lemma StartParsing(fileSpec: string, types: set<FieldType>)
    ensures Parsing(Progress(fileSpec, types), [], types, fileSpec, 0)
  {
  }

  lemma EndParsing(start: Progress, es: seq<Element>, types: set<FieldType>, offset: nat)
    requires Parsing(start, es, types, "", offset)
    ensures Ended(start, es, types, true)
  {
  }

  /** Taking the text before the next field. */
  lemma TextTaken(start: Progress, es: seq<Element>, types: set<FieldType>, fs: string, offset: nat)
    requires Parsing(start, es, types, fs, offset)
    ensures var k := PercentAt(fs);
            Parsing(start, if k == 0 then es else es + [Element(k, offset, FIXED, fs[..k])], types, fs[k..], offset + k)
  {
    hide *;
    var k := PercentAt(fs);
    TextStep(fs, offset);
    if k > 0 {
      MoreText(start, es, types, fs, offset, Element(k, offset, FIXED, fs[..k]), fs[k..]);
    } else {
      assert fs[0..] == fs;
    }
  }

  lemma MoreText(start: Progress, es: seq<Element>, types: set<FieldType>, fs: string, offset: nat, e: Element,
                 rest: string)
    requires Parsing(start, es, types, fs, offset) && e.kind == FIXED
    requires var p := Parse(rest, offset + e.numCh);
             Parse(fs, offset) == Parsed([e] + p.elements, p.ok)
    ensures Parsing(start, es + [e], types, rest, offset + e.numCh)
  {
    FieldTypesMore(es, e);
    hide Parse, FieldTypes;
    Reassociate(es, [e], Parse(rest, offset + e.numCh).elements);
  }

  lemma MoreParsed(start: Progress, es: seq<Element>, types: set<FieldType>, fs: string, offset: nat, e: Element,
                   rest: string)
    requires Parsing(start, es, types, fs, offset) && e.kind != FIXED
    requires var p := Parse(rest, offset + e.numCh);
             Parse(fs, offset) == Parsed([e] + p.elements, p.ok)
    ensures Parsing(start, es + [e], types + {e.kind}, rest, offset + e.numCh)
  {
    FieldTypesMore(es, e);
    hide Parse, FieldTypes;
    Reassociate(es, [e], Parse(rest, offset + e.numCh).elements);
    Union(start.types, FieldTypes(es), {e.kind});
  }

  lemma NotParsed(start: Progress, es: seq<Element>, types: set<FieldType>, fs: string, offset: nat)
    requires fs != "" && fs[0] == '%' && Letter(fs) == None && Parsing(start, es, types, fs, offset)
    ensures Ended(start, es, types, false)
  {
    assert Parse(fs, offset) == Parsed([], false);
    hide Parse, FieldTypes;
    assert es + [] == es;
  }

  /** Taking a field, or finding that there is none. */
  lemma FieldTaken(start: Progress, es: seq<Element>, types: set<FieldType>, fs: string, offset: nat)
    requires fs != "" && fs[0] == '%' && Parsing(start, es, types, fs, offset)
    ensures Letter(fs) == None ==> Ended(start, es, types, false)
    ensures Letter(fs) != None ==>
              var e := FieldAt(fs, offset);
              Parsing(start, es + [e], types + {e.kind}, AfterField(fs), offset + e.numCh)
  {
    hide *;
    if Letter(fs) == None {
      NotParsed(start, es, types, fs, offset);
    } else {
      FieldStep(fs, offset);
      FieldFacts(fs, offset);
      MoreParsed(start, es, types, fs, offset, FieldAt(fs, offset), AfterField(fs));
    }
  }

  lemma FieldTypesMore(es: seq<Element>, e: Element)
    ensures FieldTypes(es + [e]) == FieldTypes(es) + if e.kind == FIXED then {} else {e.kind}
  {
    assert e in es + [e] && forall e' <- es :: e' in es + [e];
  }

  lemma ConcatStep(es: seq<Element>, i: nat, f: Element -> string)
    requires i <= |es|
    ensures Concat(es[i..], f) == if i == |es| then "" else f(es[i]) + Concat(es[i + 1..], f)
  {
    if i < |es| {
      assert es[i..][1..] == es[i + 1..];
    }
  }

  class Spec {
    var fileSpecString: string
    var fileSpecList: seq<Element>
    var fileSpecSet: set<FieldType>

    constructor ()
      ensures fileSpecString == "" && fileSpecList == [] && fileSpecSet == {}
    {
      fileSpecString, fileSpecList, fileSpecSet := "", [], {};
    }

    /** The field that the specification `fs` starts with. */
    method ReadField(fs: string, offset: nat) returns (e: Option<Element>, rest: string)
      requires fs != "" && fs[0] == '%'
      ensures if Letter(fs) == None then e == None else e == Some(FieldAt(fs, offset)) && rest == AfterField(fs)
    {
      var atom := fs[..1];
      rest := fs[1..];
      hide *;
      FieldOf(fs, offset);
      var rawNumChs := AsInt(rest);
      var numChs := if rawNumChs == 0 then 1 else rawNumChs;
      if rest != "" && rest[0] == '0' {
        atom := atom + "0";
      }
      rest := StripLeading(rest, "0");
      rest := StripLeading(rest, Decimal(numChs));
      var fst := TypeNamed(if rest == "" then "" else rest[..1]);
      if fst == None {
        return None, rest;
      }
      if rest[0] == 'x' && rawNumChs == 0 {
        numChs := 0;
      }
      if rest[0] == 'Y' && numChs < 4 {
        numChs := 4;
      }
      atom := atom + Decimal(numChs);
      atom := atom + [rest[0]];
      rest := rest[1..];
      e := Some(Element(numChs, offset, fst.value, atom));
    }

    /** Take the text before the next field, if there is any. */
    method TakeText(fs: string, offset: nat, ghost start: Progress) returns (rest: string, offset': nat)
      requires Parsing(start, fileSpecList, fileSpecSet, fs, offset)
      modifies this`fileSpecList
      ensures Parsing(start, fileSpecList, fileSpecSet, rest, offset')
      ensures |rest| <= |fs| && (rest != "" ==> rest[0] == '%')
    {
      hide *;
      var pos := PercentAt(fs);
      TextTaken(start, fileSpecList, fileSpecSet, fs, offset);
      var atom := fs[..pos];
      rest, offset' := fs[pos..], offset + pos;
      if atom != "" {
        fileSpecList := fileSpecList + [Element(|atom|, offset, FIXED, atom)];
      }
    }

    /** Take the field that `fs` starts with, if it has a known type. */
    method TakeField(fs: string, offset: nat, ghost start: Progress) returns (rest: string, offset': nat, ok: bool)
      requires fs != "" && fs[0] == '%' && Parsing(start, fileSpecList, fileSpecSet, fs, offset)
      modifies this`fileSpecList, this`fileSpecSet
      ensures ok ==> Parsing(start, fileSpecList, fileSpecSet, rest, offset') && |rest| < |fs|
      ensures !ok ==> Ended(start, fileSpecList, fileSpecSet, ok)
    {
      hide *;
      FieldTaken(start, fileSpecList, fileSpecSet, fs, offset);
      var e;
      e, rest := ReadField(fs, offset);
      if e == None {
        return rest, offset, false;
      }
      fileSpecList := fileSpecList + [e.value];
      fileSpecSet := fileSpecSet + {e.value.kind};
      offset', ok := offset + e.value.numCh, true;
    }

    /** Parse a specification.  The set of types is not cleared first. */
    method Init(fileSpec: string) returns (ok: bool)
      requires UnsignedWidths(fileSpec)
      modifies this
      ensures fileSpecString == fileSpec
      ensures Parsed(fileSpecList, ok) == Parse(fileSpec, 0)
      ensures fileSpecSet == old(fileSpecSet) + FieldTypes(fileSpecList)
    {
      hide *;
      fileSpecList := [];
      fileSpecString := fileSpec;
      var offset: nat := 0;
      var fs := fileSpec;
      ghost var start := Progress(fileSpec, fileSpecSet);
      StartParsing(fileSpec, fileSpecSet);
      ok := true;
      while fs != ""
        invariant ok && fileSpecString == fileSpec && Parsing(start, fileSpecList, fileSpecSet, fs, offset)
        decreases |fs|
      {
        var rest;
        rest, offset := TakeText(fs, offset, start);
        if rest == "" {
          fs := "";
        } else {
          fs, offset, ok := TakeField(rest, offset, start);
          if !ok {
            break;
          }
        }
      }
      if ok {
        EndParsing(start, fileSpecList, fileSpecSet, offset);
      }
      EndedIs(start, fileSpecList, fileSpecSet, ok);
    }

    predicate HasField(t: FieldType)
      reads this
    {
      t in fileSpecSet
    }

    /** A type that is out of range is an exception. */
    method CreateSearchString() returns (r: Option<string>)
      ensures r == if forall e <- fileSpecList :: UNKNOWN < e.kind < END then Some(SearchString(fileSpecList)) else None
    {
      var searchString, es := "", fileSpecList;
      for i := 0 to |es|
        invariant forall j | 0 <= j < i :: UNKNOWN < es[j].kind < END
        invariant Concat(es, SearchPiece) == searchString + Concat(es[i..], SearchPiece)
      {
        var e := es[i];
        var piece;
        if e.kind <= UNKNOWN || e.kind >= END {
          return None;
        } else if e.kind == FIXED {
          piece := e.field;
        } else {
          piece := Repeat('?', e.numCh);
        }
        ConcatStep(es, i, SearchPiece);
        assert piece == SearchPiece(e);
        hide *;
        Reassociate(searchString, piece, Concat(es[i + 1..], SearchPiece));
        searchString := searchString + piece;
      }
      ConcatStep(es, |es|, SearchPiece);
      assert searchString + "" == searchString;
      r := Some(searchString);
    }

    method ExtractField(filename: string, t: FieldType) returns (r: Result<string, Error>)
      ensures r == Extract(fileSpecList, filename, t)
    {
      if t <= UNKNOWN || t >= END {
        return Err(UnknownType);
      }
      for i := 0 to |fileSpecList|
        invariant First(fileSpecList, t) == i + First(fileSpecList[i..], t)
      {
        if fileSpecList[i].kind == t {
          return Substring(filename, fileSpecList[i].offset, fileSpecList[i].numCh);
        }
      }
      r := Err(NoSuchField);
    }

    /** The name for the values; `printTime` fills in the time. */
    method ToString(printTime: string -> string, values: Values) returns (r: string)
      ensures r == printTime(Rendered(fileSpecList, values))
    {
      var toReturn, es := "", fileSpecList;
      ghost var f := ShownWith(values);
      for i := 0 to |es|
        invariant Concat(es, f) == toReturn + Concat(es[i..], f)
      {
        var e := es[i];
        var piece;
        if e.kind in values {
          if e.kind == TEXT {
            if e.numCh == 0 {
              piece := values[e.kind];
            } else {
              piece := LeftJustify(values[e.kind], e.numCh);
            }
          } else {
            piece := RightJustify(values[e.kind], e.numCh, '0');
          }
        } else {
          piece := e.field;
        }
        ConcatStep(es, i, f);
        assert piece == f(e);
        hide *;
        Reassociate(toReturn, piece, Concat(es[i + 1..], f));
        toReturn := toReturn + piece;
      }
      ConcatStep(es, |es|, f);
      assert toReturn + "" == toReturn;
      r := printTime(toReturn);
    }
  }
}
