/** What an option string declares: each letter by what follows it, wherever it stands. */
module GetoptDeclarations {
  import opened Prelude
  import opened Getopt

  /** A letter takes nothing, an argument, or an argument only in its own element. */
  datatype Takes = Nothing | Argument | Attached

  datatype Declaration = Declaration(c: char, takes: Takes)

  function Suffix(takes: Takes): string {
    match takes
    case Nothing => ""
    case Argument => ":"
    case Attached => "::"
  }

  function Written(ds: seq<Declaration>): string {
    if ds == [] then "" else [ds[0].c] + Suffix(ds[0].takes) + Written(ds[1..])
  }

  /** The letters are different ones, and stand neither for a suffix nor in the marks before them. */
  ghost predicate Orderly(mark: string, ds: seq<Declaration>) {
    && (forall i, j :: 0 <= i < j < |ds| ==> ds[i].c != ds[j].c)
    && forall d <- ds :: d.c != ':' && d.c !in mark
  }

  ghost predicate Unknown(ds: seq<Declaration>, c: char) {
    forall d <- ds :: d.c != c
  }

  lemma {:induction false} IndexAfter(a: string, b: string, c: char)
    requires c !in a
    ensures IndexOf(a + b, c) == |a| + IndexOf(b, c)
  {
    if a == "" {
      assert a + b == b;
    } else {
      IndexAfter(a[1..], b, c);
      assert (a + b)[1..] == a[1..] + b && (a + b)[0] == a[0];
    }
  }

  lemma KindAfter(a: string, b: string, c: char)
    requires c !in a && c != ':'
    ensures KindOf(a + b, c) == KindOf(b, c)
  {
    hide IndexOf;
    IndexAfter(a, b, c);
    var os, i := a + b, IndexOf(b, c);
    assert i + 1 < |b| ==> os[|a| + i + 1] == b[i + 1];
    assert i + 2 < |b| ==> os[|a| + i + 2] == b[i + 2];
  }

  /** What follows a declaration does not begin with a ':'. */
  lemma WrittenStarts(ds: seq<Declaration>)
    requires forall d <- ds :: d.c != ':'
    ensures Written(ds) != "" ==> Written(ds)[0] != ':'
  {
  }

  lemma {:induction false} KindOfWritten(ds: seq<Declaration>, c: char)
    requires Orderly("", ds) && c != ':'
    ensures Declaration(c, Nothing) in ds ==> KindOf(Written(ds), c) == NoArgument
    ensures Declaration(c, Argument) in ds ==> KindOf(Written(ds), c) == Required
    ensures Declaration(c, Attached) in ds ==> KindOf(Written(ds), c) == Optional
    ensures Unknown(ds, c) ==> KindOf(Written(ds), c) == Undeclared
  {
    if ds != [] {
      var d, rest := ds[0], ds[1..];
      var first := [d.c] + Suffix(d.takes);
      assert forall e <- rest :: e in ds;
      assert ds == [d] + rest;
      if d.c == c {
        assert forall e <- rest :: e.c != c;
        WrittenStarts(rest);
        FirstLetter(c, d.takes, Written(rest));
      } else {
        KindOfWritten(rest, c);
        KindAfter(first, Written(rest), c);
      }
    }
  }

  lemma FirstLetter(c: char, takes: Takes, rest: string)
    requires c != ':' && (rest != "" ==> rest[0] != ':')
    ensures KindOf([c] + Suffix(takes) + rest, c)
         == match takes
            case Nothing => NoArgument
            case Argument => Required
            case Attached => Optional
  {
    var os := [c] + Suffix(takes) + rest;
    assert os[0] == c && os[1..] == Suffix(takes) + rest;
  }

  /**
   A letter is decoded as its own declaration says, wherever that stands; and a letter without a declaration
   is an error.  Here `text` follows the letter in its element, and `arg` is the next element.
   */
  lemma LettersAsDeclared(mark: string, ds: seq<Declaration>, c: char, text: string, arg: Option<string>)
    requires Orderly(mark, ds) && c !in mark
    ensures var code, d := c as int, DecodeShort(mark + Written(ds), [c] + text, arg);
            && (Declaration(c, Nothing) in ds ==>
                  d == Decoded(Event(code, None, None, None, None), text, if text == "" then 1 else 0))
            && (Declaration(c, Attached) in ds ==>
                  d == Decoded(Event(code, if text == "" then None else Some(text), None, None, None), "", 1))
            && (Declaration(c, Argument) in ds && text != "" ==>
                  d == Decoded(Event(code, Some(text), None, None, None), "", 1))
            && (Declaration(c, Argument) in ds && text == "" && arg.Some? ==>
                  d == Decoded(Event(code, arg, None, None, None), "", 2))
            && (Declaration(c, Argument) in ds && text == "" && arg == None ==>
                  d == Decoded(Event((if mark != "" && mark[0] == ':' then ':' else '?') as int, None, Some(code), None,
                                     None), "", 1))
            && (Unknown(ds, c) ==>
                  d == Decoded(Event('?' as int, None, Some(code), None, None), text, if text == "" then 1 else 0))
  {
    var os := mark + Written(ds);
    assert ([c] + text)[1..] == text;
    if c != ':' {
      KindOfWritten(ds, c);
      KindAfter(mark, Written(ds), c);
    }
    WrittenStarts(ds);
    hide KindOf;
    if c == ':' {
      ColonIsUnknown(os);
    }
    assert mark != "" ==> os[0] == mark[0];
    assert mark == "" ==> os == Written(ds);
  }

  lemma ColonIsUnknown(os: string)
    ensures KindOf(os, ':') == Undeclared
  {
  }
}
