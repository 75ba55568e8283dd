/** The string functions that file specifications are parsed and printed with. */
module StringUtils {

  predicate IsDigit(c: char) {
    '0' <= c <= '9'
  }

  function DigitValue(c: char): (d: nat)
    requires IsDigit(c)
    ensures d < 10
  {
    c as int - '0' as int
  }

  predicate AllDigits(s: string) {
    forall c <- s :: IsDigit(c)
  }

  /** How many digits the string starts with. */
  function DigitCount(s: string): (n: nat)
    ensures n <= |s|
    ensures forall i | 0 <= i < n :: IsDigit(s[i])
    ensures n < |s| ==> !IsDigit(s[n])
  {
    if s == "" || !IsDigit(s[0]) then 0 else 1 + DigitCount(s[1..])
  }

  /** The number that digits denote. */
  function Value(digits: string): nat
    requires AllDigits(digits)
  {
    if digits == "" then 0
    else 10 * Value(digits[..|digits| - 1]) + DigitValue(digits[|digits| - 1])
  }

  /** The number at the start of the string, or 0 when there is none; no sign is expected. */
  function AsInt(s: string): nat {
    Value(s[..DigitCount(s)])
  }

  predicate IsSpace(c: char) {
    c == ' ' || '\t' <= c <= '\r'
  }

  /** strtol: blanks and a sign may stand before the digits. */
  function AsLong(s: string): int {
    if s != "" && IsSpace(s[0]) then AsLong(s[1..])
    else if s != "" && s[0] == '-' then 0 - AsInt(s[1..])
    else if s != "" && s[0] == '+' then AsInt(s[1..])
    else AsInt(s)
  }

  /** strtoul: the same, and a negative number wraps around. */
  function AsUnsignedLong(s: string): nat {
    if AsLong(s) < 0 then AsLong(s) % 0x1_0000_0000_0000_0000 else AsLong(s)
  }

  function Digit(d: nat): char
    requires d < 10
  {
    '0' + d as char
  }

  function Decimal(n: nat): (r: string)
    ensures r != "" && AllDigits(r)
  {
    if n < 10 then [Digit(n)] else Decimal(n / 10) + [Digit(n % 10)]
  }

  predicate StartsWith(s: string, prefix: string) {
    |prefix| <= |s| && s[..|prefix|] == prefix
  }

  /** Remove every occurrence of `prefix` from the start of the string. */
  function StripLeading(s: string, prefix: string): string {
    if prefix != "" && StartsWith(s, prefix) then StripLeading(s[|prefix|..], prefix) else s
  }

  function Repeat(c: char, n: nat): (r: string)
    ensures |r| == n && forall i | 0 <= i < n :: r[i] == c
  {
    seq(n, _ => c)
  }

  /** The first `n` characters, or all of them and blanks after them. */
  function LeftJustify(s: string, n: nat): (r: string)
    ensures |r| == n
  {
    if n < |s| then s[..n] else s + Repeat(' ', n - |s|)
  }

  /** The last `n` characters, or all of them and padding before them. */
  function RightJustify(s: string, n: nat, pad: char): (r: string)
    ensures |r| == n
  {
    if n < |s| then s[|s| - n..] else Repeat(pad, n - |s|) + s
  }

  /** Justified text lies on its side of the field, and what is too long loses its other end. */
  lemma JustifiedAt(s: string, n: nat, pad: char, i: nat)
    requires i < n
    ensures LeftJustify(s, n)[i] == if i < |s| then s[i] else ' '
    ensures RightJustify(s, n, pad)[i] == if i + |s| < n then pad else s[i + |s| - n]
  {
  }

  // ----- digits and numbers

  lemma {:induction false} DigitCountIs(digits: string, rest: string)
    requires AllDigits(digits) && (rest != "" ==> !IsDigit(rest[0]))
    ensures DigitCount(digits + rest) == |digits|
  {
    if digits == "" {
      assert digits + rest == rest;
    } else {
      DigitCountIs(digits[1..], rest);
      assert (digits + rest)[1..] == digits[1..] + rest;
    }
  }

  lemma {:induction false} ValueOfDecimal(n: nat)
    ensures Value(Decimal(n)) == n
  {
    if n >= 10 {
      ValueOfDecimal(n / 10);
      assert Decimal(n)[..|Decimal(n)| - 1] == Decimal(n / 10);
    } else {
      assert Decimal(n)[..0] == "";
    }
  }

  lemma {:induction false} LeadingZero(digits: string)
    requires AllDigits(digits)
    ensures AllDigits("0" + digits) && Value("0" + digits) == Value(digits)
  {
    var more := "0" + digits;
    if digits == "" {
      assert more == "0" && more[..0] == "";
    } else {
      LeadingZero(digits[..|digits| - 1]);
      assert more[..|more| - 1] == "0" + digits[..|digits| - 1];
    }
  }

  /** Digits without a leading zero are the decimal form of their value. */
  lemma {:induction false} DecimalOfValue(digits: string)
    requires AllDigits(digits) && digits != "" && digits[0] != '0'
    ensures Value(digits) > 0 && Decimal(Value(digits)) == digits
  {
    var front, last := digits[..|digits| - 1], digits[|digits| - 1];
    if front == "" {
      assert digits[..|digits| - 1] == "" && Value(digits) == DigitValue(last);
      assert digits == [last];
    } else {
      DecimalOfValue(front);
      assert Value(digits) / 10 == Value(front) && Value(digits) % 10 == DigitValue(last);
    }
  }

  /** Stripping the zeros and then the number itself removes exactly the digits. */
  lemma {:induction false} StripNumber(digits: string, rest: string)
    requires AllDigits(digits) && (rest != "" ==> !IsDigit(rest[0]))
    ensures var v := Value(digits);
            StripLeading(StripLeading(digits + rest, "0"), Decimal(if v == 0 then 1 else v)) == rest
  {
    hide Value, StripLeading, Decimal, DigitCount;
    if digits == "" {
      assert digits + rest == rest;
      NothingToStrip(rest);
    } else if digits[0] == '0' {
      assert digits == "0" + digits[1..] && digits + rest == "0" + (digits[1..] + rest);
      LeadingZero(digits[1..]);
      StripNumber(digits[1..], rest);
      StripOnce("0", digits[1..] + rest);
    } else {
      DecimalOfValue(digits);
      NotAZero(digits + rest);
      StripOnce(digits, rest);
      NotLeading(rest, digits);
    }
  }

  lemma NothingToStrip(rest: string)
    requires rest != "" ==> !IsDigit(rest[0])
    ensures Value("") == 0 && StripLeading(rest, "0") == rest && StripLeading(rest, Decimal(1)) == rest
  {
    NotLeading(rest, "0");
    NotLeading(rest, Decimal(1));
  }

  lemma StripOnce(prefix: string, s: string)
    requires prefix != ""
    ensures StripLeading(prefix + s, prefix) == StripLeading(s, prefix)
  {
    assert (prefix + s)[..|prefix|] == prefix && (prefix + s)[|prefix|..] == s;
  }

  lemma NotAZero(s: string)
    requires s != "" && s[0] != '0'
    ensures StripLeading(s, "0") == s
  {
    assert s[..1][0] == s[0];
  }

  lemma NotLeading(rest: string, digits: string)
    requires digits != "" && AllDigits(digits) && (rest != "" ==> !IsDigit(rest[0]))
    ensures StripLeading(rest, digits) == rest
  {
    if rest != "" {
      assert IsDigit(digits[0]);
      assert rest[..1] != digits[..1];
      assert |digits| <= |rest| ==> rest[..|digits|][..1] == rest[..1];
    }
  }
}
