/**
 Which times of the span from the start of a search to its end are searched: each level of the
 specification has periods, such as years or days, and leaves out the whole period in which the search ends.
 */
module FileSpecSpan {
  import opened StringUtils
  import opened FileSpec
  import opened Glob
  import opened FileSpecPattern
  import opened FileSpecFind

  predicate TimeLevel(q: Search, pos: nat) {
    pos <= |q.spec| && IsLevel(q, 0, pos) && TellsTime(q, pos)
  }

  /**
   Among the times from `lo` to `hi`, printing and scanning a time at a level gives the start of the period
   that it lies in; periods are at least a tenth of a second long.
   */
  ghost predicate Truncates(q: Search, pos: nat, lo: real, hi: real)
    requires pos <= |q.spec|
  {
    && (forall t | lo <= t <= hi :: TruncatesAt(q, pos, lo, t))
    && (forall t, u | lo <= t <= u <= hi :: InTurn(q, pos, t, u))
    && lo <= q.fromTime <= q.toTime <= hi
  }

  predicate TruncatesAt(q: Search, pos: nat, lo: real, t: real)
    requires pos <= |q.spec|
  {
    lo <= Period(q, pos, t) <= t && Period(q, pos, Period(q, pos, t)) == Period(q, pos, t)
  }

  predicate InTurn(q: Search, pos: nat, t: real, u: real)
    requires pos <= |q.spec|
  {
    Period(q, pos, t) == Period(q, pos, u) || Period(q, pos, t) + 0.1 <= Period(q, pos, u)
  }

  ghost predicate Calendar(q: Search, lo: real, hi: real) {
    forall pos | TimeLevel(q, pos) :: Truncates(q, pos, lo, hi)
  }

  /** The name tells the time at every level. */
  ghost predicate Dated(q: Search, path: string, t: real) {
    forall pos | TimeLevel(q, pos) :: q.scan(SpecOf(q, pos), Top(q, path, pos)) == Period(q, pos, t)
  }

  /** Some level sees the time in the period in which the search ends, but not its start. */
  ghost predicate LeftOut(q: Search, t: real) {
    exists pos :: TimeLevel(q, pos) && LeftOutAt(q, pos, t)
  }

  predicate LeftOutAt(q: Search, pos: nat, t: real)
    requires pos <= |q.spec|
  {
    Period(q, pos, t) == LastPeriod(q, pos) != FirstPeriod(q, pos)
  }

  ghost predicate OthersPass(q: Search, path: string) {
    forall pos: nat | pos <= |q.spec| && IsLevel(q, 0, pos) :: OthersOk(q, path, pos)
  }

  /**
   A file of time t that passes all other tests is found if and only if at every level with time t is not
   before the period of the start, and is before the period of the end or lies in the period of both.
   */
  lemma TimesAreFound(q: Search, path: string, t: real, lo: real, hi: real)
    requires Calendar(q, lo, hi) && lo <= t <= hi && Dated(q, path, t) && OthersPass(q, path)
    ensures Passes(q, path, 0)
       <==> forall pos | TimeLevel(q, pos) ::
              && FirstPeriod(q, pos) <= t
              && (t < LastPeriod(q, pos) || Period(q, pos, t) == FirstPeriod(q, pos) == LastPeriod(q, pos))
  {
    PassesExactly(q, path);
    hide Passes, OthersOk, SpecOf, Top, FirstPeriod, LastPeriod, IsLevel, TellsTime, Truncates, Period;
    forall pos | TimeLevel(q, pos)
      ensures var seen, first, last := Period(q, pos, t), FirstPeriod(q, pos), LastPeriod(q, pos);
              first <= seen && (seen < last || (first == last && seen < last + 0.1))
              <==> first <= t && (t < last || seen == first == last)
    {
      TimeInPeriods(q, pos, t, lo, hi);
    }
  }

  lemma TimeInPeriods(q: Search, pos: nat, t: real, lo: real, hi: real)
    requires pos <= |q.spec| && Truncates(q, pos, lo, hi) && lo <= t <= hi
    ensures var seen, first, last := Period(q, pos, t), FirstPeriod(q, pos), LastPeriod(q, pos);
            first <= seen && (seen < last || (first == last && seen < last + 0.1))
            <==> first <= t && (t < last || seen == first == last)
  {
    hide Period;
    var seen, first, last := Period(q, pos, t), FirstPeriod(q, pos), LastPeriod(q, pos);
    assert TruncatesAt(q, pos, lo, t);
    assert TruncatesAt(q, pos, lo, q.fromTime);
    assert TruncatesAt(q, pos, lo, q.toTime);
    assert first <= t ==> InTurn(q, pos, first, t);
    assert last <= t ==> InTurn(q, pos, last, t);
    assert t < last ==> seen < last;
    assert t <= q.fromTime ==> InTurn(q, pos, t, q.fromTime);
    assert q.fromTime <= t ==> InTurn(q, pos, q.fromTime, t);
  }

  /** Between the bounds of the search these are the times that are not left out. */
  lemma InsideTheSpan(q: Search, t: real, lo: real, hi: real)
    requires Calendar(q, lo, hi) && q.fromTime <= t <= q.toTime
    ensures !LeftOut(q, t)
       <==> forall pos | TimeLevel(q, pos) ::
              && FirstPeriod(q, pos) <= t
              && (t < LastPeriod(q, pos) || Period(q, pos, t) == FirstPeriod(q, pos) == LastPeriod(q, pos))
  {
    hide FirstPeriod, LastPeriod, IsLevel, TellsTime, Truncates, Period, LeftOutAt;
    forall pos | TimeLevel(q, pos)
      ensures !LeftOutAt(q, pos, t)
         <==> && FirstPeriod(q, pos) <= t
              && (t < LastPeriod(q, pos) || Period(q, pos, t) == FirstPeriod(q, pos) == LastPeriod(q, pos))
    {
      LeftOutInSpan(q, pos, t, lo, hi);
    }
  }

  lemma LeftOutInSpan(q: Search, pos: nat, t: real, lo: real, hi: real)
    requires pos <= |q.spec| && Truncates(q, pos, lo, hi) && q.fromTime <= t <= q.toTime
    ensures !LeftOutAt(q, pos, t)
       <==> && FirstPeriod(q, pos) <= t
            && (t < LastPeriod(q, pos) || Period(q, pos, t) == FirstPeriod(q, pos) == LastPeriod(q, pos))
  {
    hide Period;
    TimeInPeriods(q, pos, t, lo, hi);
    assert InTurn(q, pos, q.fromTime, t) && InTurn(q, pos, t, q.toTime);
  }

  /**
   No time from the start up to the end is left out if and only if each level with time sees start and end
   in one period, or the end is where one of its periods begins.
   */
  lemma WholeSpanIsFound(q: Search, lo: real, hi: real)
    requires Calendar(q, lo, hi)
    ensures (forall t | q.fromTime <= t < q.toTime :: !LeftOut(q, t))
       <==> forall pos | TimeLevel(q, pos) ::
              FirstPeriod(q, pos) == LastPeriod(q, pos) || LastPeriod(q, pos) == q.toTime
  {
    hide Period, FirstPeriod, LastPeriod, IsLevel, TellsTime, LeftOutAt, Truncates;
    forall pos | TimeLevel(q, pos)
      ensures FirstPeriod(q, pos) == LastPeriod(q, pos) || LastPeriod(q, pos) == q.toTime
         <==> forall t | q.fromTime <= t < q.toTime :: !LeftOutAt(q, pos, t)
    {
      SpanOfLevel(q, pos, lo, hi);
    }
    if forall t | q.fromTime <= t < q.toTime :: !LeftOut(q, t) {
      forall pos, t | TimeLevel(q, pos) && q.fromTime <= t < q.toTime ensures !LeftOutAt(q, pos, t) {
        assert !LeftOut(q, t);
      }
    }
  }

  /** The period in which the search ends begins inside the span, unless the end or the start lie at its begin. */
  lemma SpanOfLevel(q: Search, pos: nat, lo: real, hi: real)
    requires pos <= |q.spec| && Truncates(q, pos, lo, hi)
    ensures FirstPeriod(q, pos) == LastPeriod(q, pos) || LastPeriod(q, pos) == q.toTime
       <==> forall t | q.fromTime <= t < q.toTime :: !LeftOutAt(q, pos, t)
  {
    hide Period;
    var last := LastPeriod(q, pos);
    assert TruncatesAt(q, pos, lo, q.fromTime) && TruncatesAt(q, pos, lo, q.toTime);
    assert InTurn(q, pos, q.fromTime, q.toTime);
    forall t | q.fromTime <= t < q.toTime ensures Period(q, pos, t) <= t {
      assert TruncatesAt(q, pos, lo, t);
    }
    if last < q.fromTime {
      assert InTurn(q, pos, last, q.fromTime);
    } else if last < q.toTime {
      assert LeftOutAt(q, pos, last) <==> FirstPeriod(q, pos) != last;
    }
  }

  // ----- an example: directories for years, and in them files for months

  const YEARS: string := "/%4Y"
  const MONTHS: string := "/%4Y/%2m"

  /** The name for a time, which is counted in months. */
  function MonthName(spec: string, t: real): string {
    var m := if t < 0.0 then 0 else t.Floor;
    var year := "/" + RightJustify(Decimal(m / 12), 4, '0');
    if spec == YEARS then year else year + "/" + RightJustify(Decimal(m % 12 + 1), 2, '0')
  }

  /** The time that a name tells: without a month it is that of January. */
  function MonthOf(spec: string, name: string): real {
    var year := if name == "" then 0 else AsInt(name[1..]);
    var month := if |name| > 6 then AsInt(name[6..]) else 1;
    (12 * year + month - 1) as real
  }

  function Months(fromTime: real, toTime: real): Search {
    Search(MONTHS, fromTime, toTime, MonthName, MonthOf, [])
  }

  /** Times with a year of four digits. */
  predicate FourDigits(t: real) {
    12000.0 <= t < 120000.0
  }

  /** The number of the year or month in a name. */
  lemma PaddedNumber(n: nat, w: nat, rest: string)
    requires (w == 2 && 1 <= n < 100) || (w == 4 && 1000 <= n < 10000)
    requires rest != "" ==> !IsDigit(rest[0])
    ensures var s := RightJustify(Decimal(n), w, '0');
            |s| == w && AllDigits(s) && AsInt(s + rest) == n
  {
    var s := RightJustify(Decimal(n), w, '0');
    ValueOfDecimal(n);
    DigitsOfDecimal(n);
    hide Value, Decimal;
    if |Decimal(n)| == w {
      assert Repeat('0', 0) == "" && Decimal(n)[0..] == Decimal(n) && s == Decimal(n);
    } else {
      LeadingZero(Decimal(n));
      assert s == "0" + Decimal(n);
    }
    DigitCountIs(s, rest);
    assert (s + rest)[..w] == s;
  }

  lemma DigitsOfDecimal(n: nat)
    ensures n < 10 ==> |Decimal(n)| == 1
    ensures 10 <= n < 100 ==> |Decimal(n)| == 2
    ensures 1000 <= n < 10000 ==> |Decimal(n)| == 4
  {
    if 1000 <= n < 10000 {
      var a := n / 10;
      var b := a / 10;
      assert 100 <= a < 1000 && 10 <= b < 100 && 1 <= b / 10 < 10;
      assert |Decimal(b / 10)| == 1;
      assert |Decimal(b)| == 2;
      assert |Decimal(a)| == 3;
    }
  }

  /** What a name is made of, and what it tells. */
  lemma NameOfMonth(t: real)
    requires FourDigits(t)
    ensures var m, name, year := t.Floor, MonthName(MONTHS, t), MonthName(YEARS, t);
            && |year| == 5 && year[0] == '/' && AllDigits(year[1..])
            && |name| == 8 && name[..5] == year && name[5] == '/' && AllDigits(name[6..])
            && MonthOf(YEARS, year) == (m - m % 12) as real && MonthOf(MONTHS, name) == m as real
  {
    var m := t.Floor;
    assert 1000 <= m / 12 < 10000 && 12 * (m / 12) == m - m % 12;
    var y, o := RightJustify(Decimal(m / 12), 4, '0'), RightJustify(Decimal(m % 12 + 1), 2, '0');
    assert MonthName(YEARS, t) == "/" + y && MonthName(MONTHS, t) == "/" + y + "/" + o;
    PaddedNumber(m / 12, 4, "");
    PaddedNumber(m / 12, 4, "/" + o);
    PaddedNumber(m % 12 + 1, 2, "");
    hide AsInt, Decimal, RightJustify, MonthName, YEARS, MONTHS, FourDigits;
    assert y + "" == y && o + "" == o;
    NameInParts(y, o);
  }

  lemma NameInParts(y: string, o: string)
    requires |y| == 4 && |o| == 2
    ensures var name := "/" + y + "/" + o;
            && ("/" + y)[1..] == y && name[1..] == y + ("/" + o) && name[6..] == o
            && name[..5] == "/" + y && name[5] == '/'
  {
  }

  /** The two levels. */
  lemma LevelsOfMonths(q: Search)
    requires q.spec == MONTHS
    ensures forall pos :: IsLevel(q, 0, pos) <==> pos == 0 || pos == 4
    ensures LevelEnd(MONTHS, 0) == 4 && LevelEnd(MONTHS, 4) == 8 == |MONTHS|
    ensures SpecOf(q, 0) == YEARS && SpecOf(q, 4) == MONTHS
    ensures Current(MONTHS, 0) == "%4Y" && Current(MONTHS, 4) == "%2m"
  {
  }

  /** Both levels have a field of time. */
  lemma MonthsTellTime(q: Search)
    requires q.spec == MONTHS
    ensures forall pos :: TimeLevel(q, pos) <==> pos == 0 || pos == 4
  {
    hide IsLevel, TypesOf, HasTimeField, Current, LevelEnd, MONTHS;
    assert OneDigitField('4', 'Y') == "%4Y" && OneDigitField('2', 'm') == "%2m";
    hide OneDigitField;
    LevelsOfMonths(q);
    TimeField('4', 'Y');
    TimeField('2', 'm');
  }

  lemma TimeField(d: char, c: char)
    requires IsDigit(d) && TypeOf(c) >= FIRST_TIME
    ensures HasTimeField(TypesOf(OneDigitField(d, c)))
  {
    hide TypeOf, Letter, AfterField, TypesOf, TypesIn, AsInt, FieldAt;
    var fs := OneDigitField(d, c);
    assert TypeOf(c) != UNKNOWN && TypeOf(c) in {TypeOf(c)};
    FieldOfOneDigit(d, c, "", 0);
    assert fs + "" == fs && fs[0] == '%';
    TypesOfIn(fs);
    FirstField(fs);
  }

  /** Periods of years and months. */
  lemma PeriodsOfMonths(q: Search, t: real)
    requires q == Months(q.fromTime, q.toTime) && FourDigits(t)
    ensures Period(q, 0, t) == Begin(true, t) && Period(q, 4, t) == Begin(false, t)
  {
    LevelsOfMonths(q);
    NameOfMonth(t);
    hide MonthName, MonthOf, LevelEnd, IsLevel;
  }

  lemma MonthsAreCalendar(q: Search, hi: real)
    requires q == Months(q.fromTime, q.toTime) && 12000.0 <= q.fromTime <= q.toTime <= hi < 120000.0
    ensures Calendar(q, 12000.0, hi)
  {
    MonthsTellTime(q);
    hide TimeLevel, Period, Months;
    forall pos | TimeLevel(q, pos) ensures Truncates(q, pos, 12000.0, hi) {
      MonthsTruncate(q, pos, hi);
    }
  }

  lemma MonthsTruncate(q: Search, pos: nat, hi: real)
    requires pos == 0 || pos == 4
    requires q == Months(q.fromTime, q.toTime) && 12000.0 <= q.fromTime <= q.toTime <= hi < 120000.0
    ensures pos <= |q.spec| && Truncates(q, pos, 12000.0, hi)
  {
    SpecOfMonths(q);
    hide Period, TruncatesAt, InTurn, Months;
    forall t | 12000.0 <= t <= hi ensures TruncatesAt(q, pos, 12000.0, t) {
      MonthTruncated(q, pos, t);
    }
    forall t, u | 12000.0 <= t <= u <= hi ensures InTurn(q, pos, t, u) {
      MonthsInTurn(q, pos, t, u);
    }
  }

  lemma MonthsInTurn(q: Search, pos: nat, t: real, u: real)
    requires pos == 0 || pos == 4
    requires q == Months(q.fromTime, q.toTime) && FourDigits(t) && FourDigits(u) && t <= u
    ensures |q.spec| == 8 && InTurn(q, pos, t, u)
  {
    assert |q.spec| == 8;
    hide Period, Months, Begin;
    PeriodsOfMonths(q, t);
    PeriodsOfMonths(q, u);
    BeginGrows(pos == 0, t, u);
  }

  lemma MonthTruncated(q: Search, pos: nat, t: real)
    requires pos == 0 || pos == 4
    requires q == Months(q.fromTime, q.toTime) && FourDigits(t)
    ensures |q.spec| == 8 && TruncatesAt(q, pos, 12000.0, t)
  {
    assert |q.spec| == 8;
    hide Period, Months;
    PeriodsOfMonths(q, t);
    BeginIsEarlier(pos == 0, t);
    PeriodsOfMonths(q, Begin(pos == 0, t));
  }

  /** Where the year or the month of a time begins. */
  function Begin(year: bool, t: real): real {
    (if year then t.Floor - t.Floor % 12 else t.Floor) as real
  }

  lemma BeginIsEarlier(year: bool, t: real)
    requires FourDigits(t)
    ensures FourDigits(Begin(year, t)) && Begin(year, t) <= t && Begin(year, Begin(year, t)) == Begin(year, t)
  {
    var m := t.Floor;
    assert 12000 <= m < 120000 && m - m % 12 >= 12000;
    assert (m - m % 12) % 12 == 0;
  }

  lemma BeginGrows(year: bool, t: real, u: real)
    requires t <= u
    ensures Begin(year, t) == Begin(year, u) || Begin(year, t) + 0.1 <= Begin(year, u)
  {
    assert t.Floor <= u.Floor;
    assert 12 * (t.Floor / 12) == t.Floor - t.Floor % 12 && 12 * (u.Floor / 12) == u.Floor - u.Floor % 12;
  }

  /** The pattern of a slash and a field of digits. */
  lemma SlashField(d: char, c: char, rest: string, s: string, start: bool)
    requires IsDigit(d) && d != '0' && TypeOf(c) >= FIRST_TIME
    ensures Match(PatternOf("/" + (OneDigitField(d, c) + rest)), s, start)
       <==> var w := DigitValue(d);
            w + 1 <= |s| && s[0] == '/' && AllDigits(s[1..w + 1]) && Match(PatternOf(rest), s[w + 1..], false)
  {
    var w, fs := DigitValue(d), OneDigitField(d, c) + rest;
    assert w > 0 && fs != "" && fs[0] == '%' && TypeOf(c) != UNKNOWN && ItemOf(TypeOf(c)) == Digit;
    FieldOfOneDigit(d, c, rest, 0);
    hide *;
    PatternOfField(fs);
    TimePattern(w, c);
    PatternAfterText("/", fs);
    SlashDigits(w, PatternOf(rest), s, start);
  }

  lemma TimePattern(w: nat, c: char)
    requires w > 0 && TypeOf(c) >= FIRST_TIME
    ensures FieldPattern(w, c) == Many(Digit, w)
  {
  }

  lemma SlashDigits(w: nat, p: Pattern, s: string, start: bool)
    requires w > 0
    ensures Match(Literal("/") + (Many(Digit, w) + p), s, start)
       <==> w + 1 <= |s| && s[0] == '/' && AllDigits(s[1..w + 1]) && Match(p, s[w + 1..], false)
  {
    hide Match, Many, Literal;
    MatchText("/", Many(Digit, w) + p, s, start);
    if s != "" && s[0] == '/' {
      assert s[..1] == "/";
      MatchMany(Digit, w, p, s[1..], true);
      assert w + 1 <= |s| ==> s[1..][w..] == s[w + 1..];
      assert forall k | 0 <= k < w < |s| :: s[1..][k] == s[1..w + 1][k];
    } else if s != "" {
      assert s[..1][0] == s[0];
    }
  }

  lemma TopOfMonth(q: Search, t: real)
    requires q.spec == MONTHS && FourDigits(t)
    ensures Top(q, MonthName(MONTHS, t), 0) == MonthName(YEARS, t)
    ensures Top(q, MonthName(MONTHS, t), 4) == MonthName(MONTHS, t)
  {
    var name, year := MonthName(MONTHS, t), MonthName(YEARS, t);
    OneSlash();
    hide MonthName, MonthOf, IsLevel, LevelEnd, Current, YEARS, Slashes, FourDigits, Cut;
    NameOfMonth(t);
    LevelsOfMonths(q);
    forall i | 0 < i < 5 ensures name[i] != '/' {
      assert name[i] == name[..5][i] == year[i] == year[1..][i - 1] && year[1..][i - 1] in year[1..];
    }
    CutOfMonth(name);
  }

  lemma OneSlash()
    ensures Slashes(YEARS) == 1 && |YEARS| == 4 && MONTHS[..4] == YEARS && MONTHS[..8] == MONTHS
  {
  }

  /** The second slash is the sixth character. */
  lemma CutOfMonth(name: string)
    requires |name| == 8 && name[0] == '/' == name[5] && forall i | 0 < i < 5 :: name[i] != '/'
    ensures Cut(name, 1) == 5
  {
    CutAfterText(name[1..5], name[5..], 0);
    assert name[1..] == name[1..5] + name[5..];
    assert forall i | 0 <= i < 4 :: name[1..5][i] == name[i + 1];
  }

  lemma {:induction false} CutAfterText(text: string, s: string, n: nat)
    requires '/' !in text
    ensures Cut(text + s, n) == |text| + Cut(s, n)
  {
    if text == "" {
      assert text + s == s;
    } else {
      CutAfterText(text[1..], s, n);
      assert (text + s)[1..] == text[1..] + s && (text + s)[0] == text[0];
    }
  }

  lemma MonthMatches(t: real)
    requires FourDigits(t)
    ensures Match(PatternOf(YEARS), MonthName(YEARS, t), true)
    ensures Match(PatternOf(MONTHS), MonthName(MONTHS, t), true)
  {
    NameOfMonth(t);
    hide Match, PatternOf, MonthName, MonthOf, AllDigits;
    YearMatches(MonthName(YEARS, t));
    NameMatches(MonthName(MONTHS, t));
  }

  lemma YearMatches(year: string)
    requires |year| == 5 && year[0] == '/' && AllDigits(year[1..])
    ensures Match(PatternOf(YEARS), year, true)
  {
    assert YEARS == "/" + (OneDigitField('4', 'Y') + "");
    hide *;
    NothingMatches();
    TheFields();
    assert year[1..5] == year[1..] && year[5..] == "";
    SlashField('4', 'Y', "", year, true);
  }

  lemma TheFields()
    ensures IsDigit('4') && IsDigit('2') && DigitValue('4') == 4 && DigitValue('2') == 2
    ensures TypeOf('Y') >= FIRST_TIME && TypeOf('m') >= FIRST_TIME
  {
  }

  lemma NothingMatches()
    ensures Match(PatternOf(""), "", false)
  {
  }

  lemma NameMatches(name: string)
    requires |name| == 8 && name[0] == '/' && AllDigits(name[..5][1..]) && name[5] == '/' && AllDigits(name[6..])
    ensures Match(PatternOf(MONTHS), name, true)
  {
    assert MONTHS == "/" + (OneDigitField('4', 'Y') + "/%2m");
    hide *;
    TheFields();
    assert name[1..5] == name[..5][1..] && name[5..][1..] == name[6..];
    EndMatches(name[5..]);
    SlashField('4', 'Y', "/%2m", name, true);
  }

  lemma EndMatches(month: string)
    requires |month| == 3 && month[0] == '/' && AllDigits(month[1..])
    ensures Match(PatternOf("/%2m"), month, false)
  {
    assert "/%2m" == "/" + (OneDigitField('2', 'm') + "");
    hide *;
    NothingMatches();
    TheFields();
    assert month[1..3] == month[1..] && month[3..] == "";
    SlashField('2', 'm', "", month, false);
  }

  /** A name for a month matches at both levels, and tells its time. */
  lemma MonthsAreDated(q: Search, t: real)
    requires q == Months(q.fromTime, q.toTime) && FourDigits(t)
    ensures Dated(q, MonthName(MONTHS, t), t) && OthersPass(q, MonthName(MONTHS, t))
  {
    hide *;
    SpecOfMonths(q);
    MonthAtLevel(q, t, 0);
    MonthAtLevel(q, t, 4);
    AtBothLevels(q, MonthName(MONTHS, t), t);
  }

  lemma SpecOfMonths(q: Search)
    requires q == Months(q.fromTime, q.toTime)
    ensures q.spec == MONTHS && |q.spec| == 8
  {
  }

  lemma AtBothLevels(q: Search, path: string, t: real)
    requires q.spec == MONTHS && |q.spec| == 8
    requires OthersOk(q, path, 0) && q.scan(SpecOf(q, 0), Top(q, path, 0)) == Period(q, 0, t)
    requires OthersOk(q, path, 4) && q.scan(SpecOf(q, 4), Top(q, path, 4)) == Period(q, 4, t)
    ensures Dated(q, path, t) && OthersPass(q, path)
  {
    hide IsLevel, TimeLevel, OthersOk, Period, Top, SpecOf, MONTHS;
    LevelsOfMonths(q);
    MonthsTellTime(q);
  }

  lemma MonthAtLevel(q: Search, t: real, pos: nat)
    requires (pos == 0 || pos == 4) && q == Months(q.fromTime, q.toTime) && FourDigits(t)
    ensures |q.spec| == 8 && OthersOk(q, MonthName(MONTHS, t), pos)
    ensures q.scan(SpecOf(q, pos), Top(q, MonthName(MONTHS, t), pos)) == Period(q, pos, t)
  {
    assert |q.spec| == 8;
    hide MonthName, MonthOf, Match, PatternOf, Top, SpecOf, LevelEnd, IsLevel, Current;
    LevelsOfMonths(q);
    TopOfMonth(q, t);
    MonthMatches(t);
    hide MONTHS, YEARS;
  }

  /**
   For example, from March 2017 to March 2018 the file for January 2018 is not found, although that for
   December 2017 is; with the end at January 2019 it is found.  Files of other years are not found.
   */
  lemma MonthIsLost()
    ensures var january := MonthName(MONTHS, 24216.0);
            && january == "/2018/01" && 24206.0 <= MonthOf(MONTHS, january) < 24218.0
            && !Passes(Months(24206.0, 24218.0), january, 0)
            && Passes(Months(24206.0, 24228.0), january, 0)
            && Passes(Months(24206.0, 24218.0), MonthName(MONTHS, 24215.0), 0)
    ensures !Passes(Months(24206.0, 24218.0), MonthName(MONTHS, 24196.0), 0)
    ensures !Passes(Months(24206.0, 24218.0), MonthName(MONTHS, 24228.0), 0)
  {
    NameOfMonth(24216.0);
    JanuaryIs();
    Begins();
    hide MonthOf, MonthName, Passes, Months, Begin;
    MonthFound(24206.0, 24218.0, 24216.0);
    MonthFound(24206.0, 24228.0, 24216.0);
    MonthFound(24206.0, 24218.0, 24215.0);
    MonthFound(24206.0, 24218.0, 24196.0);
    MonthFound(24206.0, 24218.0, 24228.0);
  }

  lemma Begins()
    ensures Begin(true, 24206.0) == Begin(true, 24215.0) == 24204.0 && Begin(true, 24196.0) == 24192.0
    ensures Begin(true, 24216.0) == Begin(true, 24218.0) == 24216.0 && Begin(true, 24228.0) == 24228.0
    ensures forall t | t in {24196.0, 24206.0, 24215.0, 24216.0, 24218.0, 24228.0} :: Begin(false, t) == t
  {
  }

  lemma JanuaryIs()
    ensures MonthName(MONTHS, 24216.0) == "/2018/01"
  {
    assert Decimal(2) == "2" && Decimal(20) == "20" && Decimal(201) == "201" && Decimal(2018) == "2018";
    assert Decimal(1) == "1" && Repeat('0', 1) == "0" && Repeat('0', 0) == "";
  }

  /** A month is found exactly if both its year and the month itself are in the periods of the search. */
  lemma MonthFound(fromTime: real, toTime: real, t: real)
    requires 12000.0 <= fromTime <= toTime < 120000.0 && FourDigits(t)
    ensures Passes(Months(fromTime, toTime), MonthName(MONTHS, t), 0)
       <==> forall year: bool ::
              && Begin(year, fromTime) <= t
              && (t < Begin(year, toTime) || Begin(year, t) == Begin(year, fromTime) == Begin(year, toTime))
  {
    var q, hi := Months(fromTime, toTime), if t < toTime then toTime else t;
    AreFourDigits(fromTime, toTime, t);
    hide *;
    BoundsOfMonths(fromTime, toTime);
    MonthsAreCalendar(q, hi);
    MonthsAreDated(q, t);
    TimesAreFound(q, MonthName(MONTHS, t), t, 12000.0, hi);
    MonthInPeriods(q, t);
  }

  lemma MonthInPeriods(q: Search, t: real)
    requires q == Months(q.fromTime, q.toTime) && FourDigits(q.fromTime) && FourDigits(q.toTime) && FourDigits(t)
    ensures (forall pos | TimeLevel(q, pos) ::
               && FirstPeriod(q, pos) <= t
               && (t < LastPeriod(q, pos) || Period(q, pos, t) == FirstPeriod(q, pos) == LastPeriod(q, pos)))
       <==> forall year: bool ::
              && Begin(year, q.fromTime) <= t
              && (t < Begin(year, q.toTime) || Begin(year, t) == Begin(year, q.fromTime) == Begin(year, q.toTime))
  {
    hide *;
    SpecOfMonths(q);
    MonthsTellTime(q);
    forall year: bool
      ensures var pos := if year then 0 else 4;
              && FirstPeriod(q, pos) == Begin(year, q.fromTime) && LastPeriod(q, pos) == Begin(year, q.toTime)
              && Period(q, pos, t) == Begin(year, t) && TimeLevel(q, pos)
    {
      PeriodsOfMonths(q, q.fromTime);
      PeriodsOfMonths(q, q.toTime);
      PeriodsOfMonths(q, t);
      PeriodIs(q, if year then 0 else 4);
    }
    forall pos | TimeLevel(q, pos)
      ensures var year := pos == 0;
              && FirstPeriod(q, pos) == Begin(year, q.fromTime) && LastPeriod(q, pos) == Begin(year, q.toTime)
              && Period(q, pos, t) == Begin(year, t)
    {
    }
    assert forall year: bool :: Begin(year, t) == Period(q, if year then 0 else 4, t);
    assert TimeLevel(q, 0) && TimeLevel(q, 4);
  }

  lemma BoundsOfMonths(fromTime: real, toTime: real)
    ensures Months(fromTime, toTime).fromTime == fromTime && Months(fromTime, toTime).toTime == toTime
  {
  }

  lemma AreFourDigits(fromTime: real, toTime: real, t: real)
    requires 12000.0 <= fromTime <= toTime < 120000.0 && FourDigits(t)
    ensures FourDigits(fromTime) && FourDigits(toTime) && 12000.0 <= t < 120000.0
  {
  }

  lemma PeriodIs(q: Search, pos: nat)
    requires pos <= |q.spec|
    ensures FirstPeriod(q, pos) == Period(q, pos, q.fromTime) && LastPeriod(q, pos) == Period(q, pos, q.toTime)
  {
  }
}
