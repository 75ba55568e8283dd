/** The order of file names by the fields of a specification, and the filtering of old versions. */
module FileSpecSort {
  import opened Prelude
  import opened FileSpec
  import opened Sorting

  // ----- lexicographic order

  ghost predicate StrictTotal<T(!new)>(less: (T, T) -> bool) {
    && (forall x :: !less(x, x))
    && (forall x, y, z :: less(x, y) && less(y, z) ==> less(x, z))
    && (forall x, y :: less(x, y) || less(y, x) || x == y)
  }

  predicate Lex<T(==)>(less: (T, T) -> bool, a: seq<T>, b: seq<T>) {
    if a == [] || b == [] then a == [] && b != []
    else if a[0] == b[0] then Lex(less, a[1..], b[1..])
    else less(a[0], b[0])
  }

  lemma {:induction false} LexIrreflexive<T(!new)>(less: (T, T) -> bool, a: seq<T>)
    ensures !Lex(less, a, a)
  {
    if a != [] {
      LexIrreflexive(less, a[1..]);
    }
  }

  lemma {:induction false} LexTransitive<T(!new)>(less: (T, T) -> bool, a: seq<T>, b: seq<T>, c: seq<T>)
    requires StrictTotal(less) && Lex(less, a, b) && Lex(less, b, c)
    ensures Lex(less, a, c)
  {
    if a != [] && a[0] == b[0] && b[0] == c[0] {
      LexTransitive(less, a[1..], b[1..], c[1..]);
    }
  }

  lemma {:induction false} LexConnected<T(!new)>(less: (T, T) -> bool, a: seq<T>, b: seq<T>)
    requires StrictTotal(less)
    ensures Lex(less, a, b) || Lex(less, b, a) || a == b
  {
    if a != [] && b != [] && a[0] == b[0] {
      LexConnected(less, a[1..], b[1..]);
      assert a == [a[0]] + a[1..] && b == [b[0]] + b[1..];
    }
  }

  lemma LexIsTotal<T(!new)>(less: (T, T) -> bool)
    requires StrictTotal(less)
    ensures forall a :: !Lex(less, a, a)
    ensures forall a, b, c :: Lex(less, a, b) && Lex(less, b, c) ==> Lex(less, a, c)
    ensures forall a, b :: Lex(less, a, b) || Lex(less, b, a) || a == b
  {
    forall a: seq<T> ensures !Lex(less, a, a) {
      LexIrreflexive(less, a);
    }
    forall a: seq<T>, b: seq<T>, c: seq<T> | Lex(less, a, b) && Lex(less, b, c) ensures Lex(less, a, c) {
      LexTransitive(less, a, b, c);
    }
    forall a: seq<T>, b: seq<T> ensures Lex(less, a, b) || Lex(less, b, a) || a == b {
      LexConnected(less, a, b);
    }
  }

  lemma LexIsWeak<T(!new)>(less: (T, T) -> bool, a: seq<T>, b: seq<T>, c: seq<T>)
    requires StrictTotal(less)
    ensures Lex(less, a, b) ==> !Lex(less, b, a)
    ensures Lex(less, a, c) ==> Lex(less, a, b) || Lex(less, b, c)
    ensures !Lex(less, a, b) && !Lex(less, b, a) <==> a == b
  {
    LexIsTotal(less);
    hide Lex, StrictTotal;
  }

  lemma LexCons<T>(less: (T, T) -> bool, x: T, y: T, a: seq<T>, b: seq<T>)
    ensures Lex(less, [x] + a, [y] + b) == if x == y then Lex(less, a, b) else less(x, y)
  {
    assert ([x] + a)[1..] == a && ([y] + b)[1..] == b;
  }

  predicate CharLess(x: char, y: char) {
    x < y
  }

  /** std::string's operator< and operator>. */
  predicate StringLess(a: string, b: string) {
    Lex(CharLess, a, b)
  }

  predicate StringGreater(a: string, b: string) {
    StringLess(b, a)
  }

  lemma StringsAreOrdered()
    ensures StrictTotal(StringLess) && StrictTotal(StringGreater)
  {
    LexIsTotal(CharLess);
    hide Lex;
  }

  /** A string comes before another if it is a part of its front, or has the smaller character where they part. */
  lemma {:induction false} StringOrder(a: string, b: string)
    ensures StringLess(a, b) <==> (|a| < |b| && a == b[..|a|]) || exists i :: SmallerAt(a, b, i)
  {
    if a == "" || b == "" {
      assert b != "" ==> b[..0] == "";
    } else {
      StringOrder(a[1..], b[1..]);
      PartLater(a, b);
      PrefixLater(a, b);
      hide SmallerAt;
      if exists i :: SmallerAt(a[1..], b[1..], i) {
        var i :| SmallerAt(a[1..], b[1..], i);
        OnlyInside(a[1..], b[1..], i);
        assert SmallerAt(a, b, i + 1) <==> a[0] == b[0];
      }
      if exists i :: SmallerAt(a, b, i) {
        var i :| SmallerAt(a, b, i);
        OnlyInside(a, b, i);
      }
    }
  }

  lemma OnlyInside(a: string, b: string, i: int)
    requires SmallerAt(a, b, i)
    ensures i >= 0
  {
  }

  /** Two strings part at place i. */
  predicate PartAt(a: string, b: string, i: int) {
    0 <= i < |a| && i < |b| && a[..i] == b[..i] && a[i] != b[i]
  }

  /** And the first has the smaller character there. */
  predicate SmallerAt(a: string, b: string, i: int) {
    PartAt(a, b, i) && a[i] < b[i]
  }

  lemma PrefixLater(a: string, b: string)
    requires a != "" && b != ""
    ensures |a| <= |b| && a == b[..|a|] <==> a[0] == b[0] && |a[1..]| <= |b[1..]| && a[1..] == b[1..][..|a[1..]|]
  {
    assert a == [a[0]] + a[1..];
    if |a| <= |b| {
      assert b[..|a|] == [b[0]] + b[1..][..|a| - 1];
    }
  }

  lemma PartLater(a: string, b: string)
    requires a != "" && b != ""
    ensures SmallerAt(a, b, 0) <==> a[0] < b[0]
    ensures forall i | i > 0 :: SmallerAt(a, b, i) <==> a[0] == b[0] && SmallerAt(a[1..], b[1..], i - 1)
  {
    assert a[..0] == b[..0];
    forall i | i > 0 ensures SmallerAt(a, b, i) <==> a[0] == b[0] && SmallerAt(a[1..], b[1..], i - 1) {
      if i < |a| && i < |b| {
        var c, d := a[..i], b[..i];
        assert c == [a[0]] + a[1..][..i - 1] && d == [b[0]] + b[1..][..i - 1];
        assert c[1..] == a[1..][..i - 1] && d[1..] == b[1..][..i - 1];
      }
    }
  }

  // ----- the order of names

  datatype Order = Ascending | Descending

  function FieldLess(order: Order): (string, string) -> bool {
    if order == Ascending then StringLess else StringGreater
  }

  /** The characters at an element's place. */
  function Sub(name: string, e: Element): string {
    if e.offset > |name| then "" else name[e.offset..][..Min(e.numCh, |name| - e.offset)]
  }

  /** The fields of one type, in the order of the elements. */
  function KeyOfType(es: seq<Element>, t: FieldType, name: string): seq<string> {
    if es == [] then []
    else (if es[0].kind == t then [Sub(name, es[0])] else []) + KeyOfType(es[1..], t, name)
  }

  /** The fields of the types from `t` on that the specification has. */
  function KeyFrom(es: seq<Element>, types: set<FieldType>, t: FieldType, name: string): seq<string>
    decreases END - t
  {
    if t == END then [] else (if t in types then KeyOfType(es, t, name) else []) + KeyFrom(es, types, t + 1, name)
  }

  /** All fields, in the order of their types. */
  function Key(es: seq<Element>, types: set<FieldType>, name: string): seq<string> {
    KeyFrom(es, types, 1, name)
  }

  /** What a name sorts before, field by field. */
  predicate NameLess(es: seq<Element>, types: set<FieldType>, order: Order, l: string, r: string) {
    Lex(FieldLess(order), Key(es, types, l), Key(es, types, r))
  }

  function Comparator(es: seq<Element>, types: set<FieldType>, order: Order): (string, string) -> bool {
    (l: string, r: string) => NameLess(es, types, order, l, r)
  }

  /** The order is a strict weak one, and names are equivalent when all their fields are the same. */
  lemma ComparatorIsStrictWeak(es: seq<Element>, types: set<FieldType>, order: Order)
    ensures var less := Comparator(es, types, order);
            && StrictWeak(less)
            && forall l, r :: Equivalent(less, l, r) <==> Key(es, types, l) == Key(es, types, r)
  {
    StringsAreOrdered();
    hide Lex, Key, StrictTotal;
    var less, f := Comparator(es, types, order), FieldLess(order);
    forall x, y, z
      ensures (less(x, y) ==> !less(y, x)) && (less(x, z) ==> less(x, y) || less(y, z))
      ensures Equivalent(less, x, y) <==> Key(es, types, x) == Key(es, types, y)
    {
      LexIsWeak(f, Key(es, types, x), Key(es, types, y), Key(es, types, z));
    }
  }

  /** Names that the comparator can look at: std::string::substr fails beyond the end. */
  predicate Reaches(es: seq<Element>, types: set<FieldType>, name: string) {
    forall e <- es :: e.kind in types ==> e.offset <= |name|
  }

  lemma KeyStep(es: seq<Element>, i: nat, t: FieldType, name: string, more: seq<string>)
    requires i <= |es|
    ensures KeyOfType(es[i..], t, name) + more
         == if i == |es| then more
            else if es[i].kind == t then [Sub(name, es[i])] + (KeyOfType(es[i + 1..], t, name) + more)
            else KeyOfType(es[i + 1..], t, name) + more
  {
    if i < |es| {
      assert es[i..][1..] == es[i + 1..];
      hide Sub;
    }
  }

  lemma KeyFromStep(es: seq<Element>, types: set<FieldType>, t: FieldType, name: string)
    requires t < END
    ensures KeyFrom(es, types, t, name)
         == if t in types then KeyOfType(es, t, name) + KeyFrom(es, types, t + 1, name)
            else KeyFrom(es, types, t + 1, name)
  {
  }

  lemma NoKey(es: seq<Element>, types: set<FieldType>, name: string)
    ensures KeyFrom(es, types, END, name) == []
  {
  }

  /** An element that is compared and that a name does not reach. */
  predicate OutOfReach(e: Element, l: string, r: string) {
    e.offset > |l| || e.offset > |r|
  }

  predicate Differs(e: Element, l: string, r: string) {
    Sub(l, e) != Sub(r, e)
  }

  function ElementsOfType(es: seq<Element>, t: FieldType): seq<Element> {
    if es == [] then [] else (if es[0].kind == t then [es[0]] else []) + ElementsOfType(es[1..], t)
  }

  function ComparedFrom(es: seq<Element>, types: set<FieldType>, t: FieldType): seq<Element>
    decreases END - t
  {
    if t == END then [] else (if t in types then ElementsOfType(es, t) else []) + ComparedFrom(es, types, t + 1)
  }

  /** The elements in the order in which they are compared. */
  function Compared(es: seq<Element>, types: set<FieldType>): seq<Element> {
    ComparedFrom(es, types, 1)
  }

  /** Going through the elements, two names differ before one of them is out of reach. */
  predicate Settled(cs: seq<Element>, l: string, r: string) {
    cs == [] || (!OutOfReach(cs[0], l, r) && (Differs(cs[0], l, r) || Settled(cs[1..], l, r)))
  }

  predicate DifferBefore(cs: seq<Element>, i: nat, l: string, r: string)
    requires i <= |cs|
  {
    exists j | 0 <= j < i :: Differs(cs[j], l, r)
  }

  /** Every element out of reach comes after one in which the names differ. */
  lemma {:induction false} SettledExactly(cs: seq<Element>, l: string, r: string)
    ensures Settled(cs, l, r) <==> forall i | 0 <= i < |cs| && OutOfReach(cs[i], l, r) :: DifferBefore(cs, i, l, r)
  {
    if cs != [] {
      hide OutOfReach, Differs, DifferBefore;
      var rest := cs[1..];
      SettledExactly(rest, l, r);
      NoneDiffers(cs, l, r);
      forall i | 0 <= i < |rest|
        ensures DifferBefore(cs, i + 1, l, r) <==> Differs(cs[0], l, r) || DifferBefore(rest, i, l, r)
      {
        DifferLater(cs, i, l, r);
      }
      assert forall i | 0 < i < |cs| :: cs[i] == rest[i - 1];
    }
  }

  lemma NoneDiffers(cs: seq<Element>, l: string, r: string)
    ensures !DifferBefore(cs, 0, l, r)
  {
  }

  lemma DifferLater(cs: seq<Element>, i: nat, l: string, r: string)
    requires i < |cs|
    ensures DifferBefore(cs, i + 1, l, r) <==> Differs(cs[0], l, r) || DifferBefore(cs[1..], i, l, r)
  {
    hide Differs;
    if DifferBefore(cs[1..], i, l, r) {
      var j :| 0 <= j < i && Differs(cs[1..][j], l, r);
      assert Differs(cs[j + 1], l, r);
    }
    if DifferBefore(cs, i + 1, l, r) {
      var j :| 0 <= j < i + 1 && Differs(cs[j], l, r);
      assert j > 0 ==> Differs(cs[1..][j - 1], l, r);
    }
  }

  lemma {:induction false} ElementsAreOfType(es: seq<Element>, t: FieldType)
    ensures forall e <- ElementsOfType(es, t) :: e in es && e.kind == t
  {
    if es != [] {
      ElementsAreOfType(es[1..], t);
    }
  }

  lemma {:induction false} ComparedAreFields(es: seq<Element>, types: set<FieldType>, t: FieldType)
    ensures forall e <- ComparedFrom(es, types, t) :: e in es && e.kind in types
    decreases END - t
  {
    if t < END {
      ComparedAreFields(es, types, t + 1);
      ElementsAreOfType(es, t);
    }
  }

  /** So names that reach all fields can be compared. */
  lemma ReachingIsSettled(es: seq<Element>, types: set<FieldType>, l: string, r: string)
    requires Reaches(es, types, l) && Reaches(es, types, r)
    ensures Settled(Compared(es, types), l, r)
  {
    hide ComparedFrom, Settled;
    ComparedAreFields(es, types, 1);
    SettledExactly(Compared(es, types), l, r);
  }

  lemma SettledStep(es: seq<Element>, i: nat, t: FieldType, more: seq<Element>, l: string, r: string)
    requires i <= |es|
    ensures Settled(ElementsOfType(es[i..], t) + more, l, r)
       <==> if i == |es| then Settled(more, l, r)
            else if es[i].kind != t then Settled(ElementsOfType(es[i + 1..], t) + more, l, r)
            else
              && !OutOfReach(es[i], l, r)
              && (Sub(l, es[i]) != Sub(r, es[i]) || Settled(ElementsOfType(es[i + 1..], t) + more, l, r))
  {
    if i == |es| {
      assert ElementsOfType(es[i..], t) + more == more;
    } else {
      var rest := ElementsOfType(es[i + 1..], t);
      assert es[i..][1..] == es[i + 1..];
      if es[i].kind == t {
        Reassociate([es[i]], rest, more);
        assert ([es[i]] + (rest + more))[1..] == rest + more;
      } else {
        assert [] + rest == rest;
      }
    }
  }

  lemma ComparedStep(es: seq<Element>, types: set<FieldType>, t: FieldType)
    requires t < END
    ensures ComparedFrom(es, types, t)
         == if t in types then ElementsOfType(es, t) + ComparedFrom(es, types, t + 1)
            else ComparedFrom(es, types, t + 1)
  {
  }

  lemma NothingCompared(es: seq<Element>, types: set<FieldType>, l: string, r: string)
    ensures Settled(ComparedFrom(es, types, END), l, r)
  {
  }

  datatype Comparison = Undecided | Decided(less: bool) | Failed

  /**
   Compare the fields of one type; `kl` and `kr` are the fields of later types, and `later` their elements.
   A field that a name does not reach is an exception.
   */
  method CompareType(es: seq<Element>, fst: FieldType, order: Order, l: string, r: string,
                     ghost kl: seq<string>, ghost kr: seq<string>, ghost later: seq<Element>)
    returns (c: Comparison)
    ensures Settled(ElementsOfType(es, fst) + later, l, r)
       <==> c.Decided? || (c.Undecided? && Settled(later, l, r))
    ensures !c.Failed? ==>
              Lex(FieldLess(order), KeyOfType(es, fst, l) + kl, KeyOfType(es, fst, r) + kr)
              == if c.Decided? then c.less else Lex(FieldLess(order), kl, kr)
  {
    hide *;
    ghost var f := FieldLess(order);
    assert es[0..] == es;
    for i := 0 to |es|
      invariant Lex(f, KeyOfType(es, fst, l) + kl, KeyOfType(es, fst, r) + kr)
             == Lex(f, KeyOfType(es[i..], fst, l) + kl, KeyOfType(es[i..], fst, r) + kr)
      invariant Settled(ElementsOfType(es, fst) + later, l, r) == Settled(ElementsOfType(es[i..], fst) + later, l, r)
    {
      SettledStep(es, i, fst, later, l, r);
      KeyStep(es, i, fst, l, kl);
      KeyStep(es, i, fst, r, kr);
      if es[i].kind == fst {
        if OutOfReach(es[i], l, r) {
          return Failed;
        }
        var lsub := Sub(l, es[i]);
        var rsub := Sub(r, es[i]);
        LexCons(f, lsub, rsub, KeyOfType(es[i + 1..], fst, l) + kl, KeyOfType(es[i + 1..], fst, r) + kr);
        FieldLessIs(order, lsub, rsub);
        if (order == Ascending && StringLess(lsub, rsub)) || (order == Descending && StringLess(rsub, lsub)) {
          return Decided(true);
        }
        if lsub != rsub {
          return Decided(false);
        }
      }
    }
    KeyStep(es, |es|, fst, l, kl);
    KeyStep(es, |es|, fst, r, kr);
    SettledStep(es, |es|, fst, later, l, r);
    c := Undecided;
  }

  /**
   The sort operator: every type in turn, and every element of that type.  It fails exactly if it comes to
   an element out of reach before the names differ.
   */
  method Compare(es: seq<Element>, types: set<FieldType>, order: Order, l: string, r: string)
    returns (ok: bool, less: bool)
    ensures ok ==> less == NameLess(es, types, order, l, r)
    ensures ok <==> Settled(Compared(es, types), l, r)
  {
    hide KeyFrom, KeyOfType, FieldLess, ComparedFrom, ElementsOfType, Settled;
    var fst: FieldType := 1;
    while fst < END
      invariant 1 <= fst <= END
      invariant NameLess(es, types, order, l, r)
             == Lex(FieldLess(order), KeyFrom(es, types, fst, l), KeyFrom(es, types, fst, r))
      invariant Settled(Compared(es, types), l, r) == Settled(ComparedFrom(es, types, fst), l, r)
    {
      hide Lex, NameLess;
      ComparedStep(es, types, fst);
      KeyFromStep(es, types, fst, l);
      KeyFromStep(es, types, fst, r);
      if fst in types {
        var c := CompareType(es, fst, order, l, r, KeyFrom(es, types, fst + 1, l), KeyFrom(es, types, fst + 1, r),
                             ComparedFrom(es, types, fst + 1));
        if c == Failed {
          return false, false;
        } else if c.Decided? {
          return true, c.less;
        }
      }
      fst := fst + 1;
    }
    NoKey(es, types, l);
    NoKey(es, types, r);
    NothingCompared(es, types, l, r);
    ok, less := true, false;
  }

  lemma FieldLessIs(order: Order, l: string, r: string)
    ensures FieldLess(order)(l, r)
       <==> (order == Ascending && StringLess(l, r)) || (order == Descending && StringLess(r, l))
    ensures !FieldLess(order)(l, l)
  {
    LexIrreflexive(CharLess, l);
  }

  // ----- old versions

  /** What comes after the last slash. */
  function BaseName(name: string): string {
    if name == "" || name[|name| - 1] == '/' then "" else BaseName(name[..|name| - 1]) + [name[|name| - 1]]
  }

  lemma BaseNameStep(name: string)
    ensures BaseName(name)
         == if name == "" || name[|name| - 1] == '/' then ""
            else BaseName(name[..|name| - 1]) + [name[|name| - 1]]
  {
  }

  lemma {:induction false} BaseNameIs(directory: string, name: string)
    requires '/' !in name && (directory == "" || directory[|directory| - 1] == '/')
    ensures BaseName(directory + name) == name
  {
    var path := directory + name;
    BaseNameStep(path);
    hide BaseName;
    if name == "" {
      assert path == directory;
    } else {
      var n := |name| - 1;
      BaseNameIs(directory, name[..n]);
      assert path[..|path| - 1] == directory + name[..n] && path[|path| - 1] == name[n];
      assert name == name[..n] + [name[n]];
    }
  }

  /** The file's name without the characters of the version field. */
  function Stripped(version: Element, name: string): string {
    var b := BaseName(name);
    if version.offset > |b| then b else b[..version.offset] + b[Min(version.offset + version.numCh, |b|)..]
  }

  /** A std::map from strings to strings, in the order of the keys. */
  type StringMap = seq<(string, string)>

  function Put(m: StringMap, k: string, v: string): StringMap {
    if m == [] then [(k, v)]
    else if m[0].0 == k then [(k, v)] + m[1..]
    else if StringLess(k, m[0].0) then [(k, v)] + m
    else [m[0]] + Put(m[1..], k, v)
  }

  /** Every name under its stripped name; a later one replaces an earlier one. */
  function Versions(version: Element, names: seq<string>): StringMap {
    if names == [] then []
    else Put(Versions(version, names[..|names| - 1]), Stripped(version, names[|names| - 1]), names[|names| - 1])
  }

  function Files(m: StringMap): (r: seq<string>)
    ensures |r| == |m| && forall i | 0 <= i < |m| :: r[i] == m[i].1
  {
    seq(|m|, i requires 0 <= i < |m| => m[i].1)
  }

  /** The names that are left: all of them sorted, or one version of each file. */
  function Listed(es: seq<Element>, types: set<FieldType>, order: Order, fileList: seq<string>): seq<string>
    requires VERSION in types ==> First(es, VERSION) < |es|
  {
    var sorted := StableSort(Comparator(es, types, order), fileList);
    if VERSION in types then Files(Versions(es[First(es, VERSION)], sorted)) else sorted
  }

  /** Any two of the names can be compared. */
  predicate Comparable(es: seq<Element>, types: set<FieldType>, names: seq<string>) {
    forall i, j | 0 <= i < j < |names| :: Settled(Compared(es, types), names[i], names[j])
  }

  /** Sort a list of names.  A file's name that does not reach the version field is an exception. */
  method SortList(es: seq<Element>, types: set<FieldType>, order: Order, fileList: seq<string>)
    returns (ok: bool, r: seq<string>)
    requires VERSION in types ==> First(es, VERSION) < |es|
    requires Comparable(es, types, fileList)
    ensures ok <==> (VERSION in types ==> forall n <- fileList :: es[First(es, VERSION)].offset <= |BaseName(n)|)
    ensures ok ==> r == Listed(es, types, order, fileList)
  {
    hide *;
    r := StableSort(Comparator(es, types, order), fileList);
    ListedIs(es, types, order, fileList);
    if VERSION in types {
      var version := es[First(es, VERSION)];
      var copyOfFileList := r;
      for i := 0 to |copyOfFileList|
        invariant |copyOfFileList| == |r|
        invariant forall j | 0 <= j < i ::
                    copyOfFileList[j] == Stripped(version, r[j]) && version.offset <= |BaseName(r[j])|
        invariant forall j | i <= j < |r| :: copyOfFileList[j] == r[j]
      {
        if version.offset > |BaseName(r[i])| {
          assert r[i] in r;
          return false, r;
        }
        copyOfFileList := copyOfFileList[i := Stripped(version, copyOfFileList[i])];
      }
      var versionMap: StringMap := [];
      NoVersions(version);
      for i := 0 to |r|
        invariant versionMap == Versions(version, r[..i])
      {
        assert r[..i + 1] == r[..i] + [r[i]];
        MoreVersions(version, r[..i], r[i]);
        versionMap := Put(versionMap, copyOfFileList[i], r[i]);
      }
      assert r[..|r|] == r;
      ghost var all := r;
      r := [];
      for i := 0 to |versionMap|
        invariant |r| == i && forall j | 0 <= j < i :: r[j] == versionMap[j].1
      {
        r := r + [versionMap[i].1];
      }
      assert r == Files(versionMap);
      assert forall n | n in fileList :: n in all;
    }
    ok := true;
  }

  lemma ListedIs(es: seq<Element>, types: set<FieldType>, order: Order, fileList: seq<string>)
    requires VERSION in types ==> First(es, VERSION) < |es|
    ensures var sorted := StableSort(Comparator(es, types, order), fileList);
            && (forall x :: x in sorted <==> x in fileList)
            && Listed(es, types, order, fileList)
               == if VERSION in types then Files(Versions(es[First(es, VERSION)], sorted)) else sorted
  {
    ComparatorIsStrictWeak(es, types, order);
    StableSortSorts(Comparator(es, types, order), fileList);
    SortedMembers(Comparator(es, types, order), fileList);
  }

  lemma NoVersions(version: Element)
    ensures Versions(version, []) == []
  {
  }

  lemma MoreVersions(version: Element, names: seq<string>, n: string)
    ensures Versions(version, names + [n]) == Put(Versions(version, names), Stripped(version, n), n)
  {
    assert (names + [n])[..|names|] == names;
  }

  ghost predicate Increasing(m: StringMap) {
    forall i, j | 0 <= i < j < |m| :: StringLess(m[i].0, m[j].0)
  }

  lemma {:induction false} PutHolds(m: StringMap, k: string, v: string)
    requires Increasing(m)
    ensures Increasing(Put(m, k, v))
    ensures forall p :: p in Put(m, k, v) <==> p == (k, v) || (p.0 != k && p in m)
  {
    hide StringLess;
    if m == [] {
      assert Put(m, k, v) == [(k, v)];
    } else {
      var rest := m[1..];
      StringsAreOrdered();
      IncreasingTail(m);
      hide Increasing;
      if m[0].0 == k {
        IncreasingCons((k, v), rest);
      } else if StringLess(k, m[0].0) {
        assert forall p <- m :: StringLess(k, p.0);
        IncreasingCons((k, v), m);
      } else {
        PutHolds(rest, k, v);
        IncreasingCons(m[0], Put(rest, k, v));
      }
    }
  }

  lemma IncreasingTail(m: StringMap)
    requires Increasing(m) && m != []
    ensures Increasing(m[1..]) && m == [m[0]] + m[1..]
    ensures forall p <- m[1..] :: StringLess(m[0].0, p.0)
  {
    hide StringLess;
  }

  lemma IncreasingCons(p: (string, string), m: StringMap)
    requires Increasing(m) && forall q <- m :: StringLess(p.0, q.0)
    ensures Increasing([p] + m)
  {
    hide StringLess;
  }

  /** The last of the names with a stripped name. */
  ghost predicate Last(version: Element, names: seq<string>, p: (string, string)) {
    exists i | 0 <= i < |names| ::
      && names[i] == p.1 && Stripped(version, p.1) == p.0
      && forall j | i < j < |names| :: Stripped(version, names[j]) != p.0
  }

  lemma {:induction false} VersionsAreLast(version: Element, names: seq<string>)
    ensures Increasing(Versions(version, names))
    ensures forall p :: p in Versions(version, names) <==> Last(version, names, p)
  {
    if names != [] {
      var front, n := names[..|names| - 1], names[|names| - 1];
      VersionsAreLast(version, front);
      PutHolds(Versions(version, front), Stripped(version, n), n);
      hide Stripped, Put;
      forall p
        ensures Last(version, names, p)
           <==> p == (Stripped(version, n), n) || (p.0 != Stripped(version, n) && Last(version, front, p))
      {
        LastOfMore(version, front, n, p);
        assert front + [n] == names;
      }
    }
  }

  lemma LastOfMore(version: Element, front: seq<string>, n: string, p: (string, string))
    ensures Last(version, front + [n], p)
       <==> p == (Stripped(version, n), n) || (p.0 != Stripped(version, n) && Last(version, front, p))
  {
    hide Stripped;
    var names := front + [n];
    if p == (Stripped(version, n), n) {
      assert names[|front|] == n;
    }
    if p.0 != Stripped(version, n) && Last(version, front, p) {
      var i :| 0 <= i < |front| && front[i] == p.1 && forall j | i < j < |front| :: Stripped(version, front[j]) != p.0;
      assert names[i] == p.1;
    }
    if Last(version, names, p) {
      var i :| 0 <= i < |names| && names[i] == p.1 && forall j | i < j < |names| :: Stripped(version, names[j]) != p.0;
      if i < |front| {
        assert names[|front|] == n && front[i] == p.1;
        assert forall j | i < j < |front| :: names[j] == front[j];
      }
    }
  }

  // ----- which versions are kept

  predicate SlashFree(name: string) {
    '/' !in name
  }

  lemma {:induction false} BaseNameOfSlashFree(name: string)
    requires SlashFree(name)
    ensures BaseName(name) == name
  {
    if name != "" {
      BaseNameOfSlashFree(name[..|name| - 1]);
    }
  }

  /** A specification with exactly one version field, the element `v`. */
  ghost predicate OneVersion(es: seq<Element>, types: set<FieldType>, v: nat) {
    && Tiled(es, 0) && VERSION in types && v < |es| && es[v].kind == VERSION
    && forall i | 0 <= i < |es| && es[i].kind == VERSION :: i == v
  }

  lemma OffsetsGrow(es: seq<Element>, i: nat, j: nat)
    requires Tiled(es, 0) && i < j < |es|
    ensures es[i].offset + es[i].numCh <= es[j].offset
  {
    WidthsGrow(es, i, j);
  }

  lemma {:induction false} WidthsGrow(es: seq<Element>, i: nat, j: nat)
    requires i < j <= |es|
    ensures TotalWidth(es[..i]) + es[i].numCh <= TotalWidth(es[..j])
  {
    assert es[..j][1..] == es[1..][..j - 1];
    if i > 0 {
      WidthsGrow(es[1..], i - 1, j - 1);
      assert es[..i][1..] == es[1..][..i - 1];
    }
  }

  /** Two names that the specification and the version filter can read, the same but for the version. */
  ghost predicate SameFile(es: seq<Element>, types: set<FieldType>, v: nat, a: string, b: string) {
    && OneVersion(es, types, v)
    && Reaches(es, types, a) && Reaches(es, types, b) && SlashFree(a) && SlashFree(b)
    && Stripped(es[v], a) == Stripped(es[v], b)
  }

  /** Apart from the version, the names agree in every field. */
  lemma SameOtherField(es: seq<Element>, types: set<FieldType>, v: nat, a: string, b: string, i: nat)
    requires SameFile(es, types, v, a, b) && i < |es| && i != v && es[i].kind in types
    ensures Sub(a, es[i]) == Sub(b, es[i])
  {
    BaseNameOfSlashFree(a);
    BaseNameOfSlashFree(b);
    var ve, e := es[v], es[i];
    assert ve in es && e in es;
    if i < v {
      OffsetsGrow(es, i, v);
      assert Stripped(ve, a)[..ve.offset] == a[..ve.offset] && Stripped(ve, b)[..ve.offset] == b[..ve.offset];
      SameBefore(a, b, ve, e);
    } else {
      OffsetsGrow(es, v, i);
      SameAfter(a, b, ve, e);
    }
  }

  lemma PrefixSlice(a: string, n: nat, i: nat, j: nat)
    requires i <= j <= n <= |a|
    ensures a[i..j] == a[..n][i..j]
  {
  }

  lemma SameBefore(a: string, b: string, ve: Element, e: Element)
    requires ve.offset <= |a| && ve.offset <= |b| && a[..ve.offset] == b[..ve.offset]
    requires e.offset + e.numCh <= ve.offset
    ensures Sub(a, e) == Sub(b, e)
  {
    SubIs(a, e);
    SubIs(b, e);
    hide *;
    PrefixSlice(a, ve.offset, e.offset, e.offset + e.numCh);
    PrefixSlice(b, ve.offset, e.offset, e.offset + e.numCh);
  }

  lemma SameAfter(a: string, b: string, ve: Element, e: Element)
    requires BaseName(a) == a && BaseName(b) == b && Stripped(ve, a) == Stripped(ve, b)
    requires ve.offset + ve.numCh <= e.offset <= |a| && e.offset <= |b|
    ensures Sub(a, e) == Sub(b, e)
  {
    var end := ve.offset + ve.numCh;
    assert Stripped(ve, a)[ve.offset..] == a[end..];
    assert Stripped(ve, b)[ve.offset..] == b[end..];
    hide *;
    SubOfRest(a, end, e);
    SubOfRest(b, end, e);
  }

  lemma SubOfRest(a: string, end: nat, e: Element)
    requires end <= e.offset <= |a|
    ensures Sub(a, e) == Sub(a[end..], e.(offset := e.offset - end))
  {
    assert a[e.offset..] == a[end..][e.offset - end..];
  }

  lemma {:induction false} SameKeyOfType(es: seq<Element>, t: FieldType, a: string, b: string)
    requires forall e <- es :: e.kind == t ==> Sub(a, e) == Sub(b, e)
    ensures KeyOfType(es, t, a) == KeyOfType(es, t, b)
  {
    hide Sub;
    if es != [] {
      SameKeyOfType(es[1..], t, a, b);
    }
  }

  lemma {:induction false} SameKeyFrom(es: seq<Element>, types: set<FieldType>, t: FieldType, a: string, b: string)
    requires forall e <- es :: e.kind >= t && e.kind in types ==> Sub(a, e) == Sub(b, e)
    ensures KeyFrom(es, types, t, a) == KeyFrom(es, types, t, b)
    decreases END - t
  {
    hide Sub;
    if t < END {
      SameKeyFrom(es, types, t + 1, a, b);
      if t in types {
        SameKeyOfType(es, t, a, b);
      }
    }
  }

  lemma {:induction false} KeyOfOne(es: seq<Element>, t: FieldType, v: nat, name: string)
    requires v < |es| && es[v].kind == t && forall i | 0 <= i < |es| && es[i].kind == t :: i == v
    ensures KeyOfType(es, t, name) == [Sub(name, es[v])]
  {
    hide Sub;
    if v == 0 {
      NoKeyOfType(es[1..], t, name);
    } else {
      assert forall i | 0 <= i < |es| - 1 :: es[1..][i] == es[i + 1];
      KeyOfOne(es[1..], t, v - 1, name);
    }
  }

  lemma {:induction false} NoKeyOfType(es: seq<Element>, t: FieldType, name: string)
    requires forall i | 0 <= i < |es| :: es[i].kind != t
    ensures KeyOfType(es, t, name) == []
  {
    if es != [] {
      NoKeyOfType(es[1..], t, name);
    }
  }

  lemma {:induction false} LexSamePrefix<T>(less: (T, T) -> bool, p: seq<T>, a: seq<T>, b: seq<T>)
    ensures Lex(less, p + a, p + b) == Lex(less, a, b)
  {
    if p == [] {
      assert p + a == a && p + b == b;
    } else {
      LexSamePrefix(less, p[1..], a, b);
      assert p == [p[0]] + p[1..];
      LexCons(less, p[0], p[0], p[1..] + a, p[1..] + b);
      assert p + a == [p[0]] + (p[1..] + a) && p + b == [p[0]] + (p[1..] + b);
    }
  }

  /** Versions of one file are in the order of their version fields. */
  lemma {:induction false} VersionsInOrder(es: seq<Element>, types: set<FieldType>, order: Order, v: nat, a: string,
                                           b: string, t: FieldType)
    requires v < |es| && SameFile(es, types, v, a, b) && t <= VERSION
    ensures Lex(FieldLess(order), KeyFrom(es, types, t, a), KeyFrom(es, types, t, b))
        <==> FieldLess(order)(Sub(a, es[v]), Sub(b, es[v]))
    decreases VERSION - t
  {
    hide Sub, Lex, KeyFrom, KeyOfType, FieldLess, SameFile, OneVersion;
    var f := FieldLess(order);
    OtherFieldsSame(es, types, v, a, b);
    VersionKey(es, types, v, a);
    VersionKey(es, types, v, b);
    KeyFromStep(es, types, t, a);
    KeyFromStep(es, types, t, b);
    if t == VERSION {
      SameKeyFrom(es, types, t + 1, a, b);
      LexCons(f, Sub(a, es[v]), Sub(b, es[v]), KeyFrom(es, types, t + 1, a), KeyFrom(es, types, t + 1, b));
      SameLast(order, Sub(a, es[v]), KeyFrom(es, types, t + 1, a));
    } else {
      VersionsInOrder(es, types, order, v, a, b, t + 1);
      if t in types {
        SameKeyOfType(es, t, a, b);
        LexSamePrefix(f, KeyOfType(es, t, a), KeyFrom(es, types, t + 1, a), KeyFrom(es, types, t + 1, b));
      }
    }
  }

  lemma OtherFieldsSame(es: seq<Element>, types: set<FieldType>, v: nat, a: string, b: string)
    requires SameFile(es, types, v, a, b)
    ensures OneVersion(es, types, v)
    ensures forall e <- es :: e.kind != VERSION && e.kind in types ==> Sub(a, e) == Sub(b, e)
  {
    hide Sub, Stripped;
    forall e | e in es && e.kind != VERSION && e.kind in types ensures Sub(a, e) == Sub(b, e) {
      var i :| 0 <= i < |es| && es[i] == e;
      SameOtherField(es, types, v, a, b, i);
    }
  }

  lemma VersionKey(es: seq<Element>, types: set<FieldType>, v: nat, name: string)
    requires OneVersion(es, types, v)
    ensures v < |es| && VERSION in types && KeyOfType(es, VERSION, name) == [Sub(name, es[v])]
  {
    hide Tiled;
    KeyOfOne(es, VERSION, v, name);
  }

  lemma SameLast(order: Order, s: string, k: seq<string>)
    ensures !Lex(FieldLess(order), k, k) && !FieldLess(order)(s, s)
  {
    LexIrreflexive(FieldLess(order), k);
    LexIrreflexive(CharLess, s);
  }

  /** A name is determined by its version and the rest. */
  lemma VersionAndRest(es: seq<Element>, types: set<FieldType>, v: nat, a: string, b: string)
    requires SameFile(es, types, v, a, b) && Sub(a, es[v]) == Sub(b, es[v])
    ensures a == b
  {
    var ve := es[v];
    assert ve in es;
    BaseNameOfSlashFree(a);
    BaseNameOfSlashFree(b);
    Reassembled(a, ve);
    Reassembled(b, ve);
  }

  lemma SubIs(a: string, ve: Element)
    requires ve.offset <= |a|
    ensures Sub(a, ve) == a[ve.offset..Min(ve.offset + ve.numCh, |a|)]
    ensures ve.offset + ve.numCh <= |a| ==> Sub(a, ve) == a[ve.offset..ve.offset + ve.numCh]
  {
  }

  lemma Reassembled(a: string, ve: Element)
    requires BaseName(a) == a && ve.offset <= |a|
    ensures |Stripped(ve, a)| >= ve.offset
    ensures a == Stripped(ve, a)[..ve.offset] + Sub(a, ve) + Stripped(ve, a)[ve.offset..]
  {
    var start, end := ve.offset, Min(ve.offset + ve.numCh, |a|);
    SubIs(a, ve);
    assert Stripped(ve, a) == a[..start] + a[end..];
    hide *;
    CutOut(a, start, end);
  }

  lemma CutOut(a: string, start: nat, end: nat)
    requires start <= end <= |a|
    ensures var rest := a[..start] + a[end..];
            && |rest| >= start && rest[..start] == a[..start] && rest[start..] == a[end..]
            && a == rest[..start] + a[start..end] + rest[start..]
  {
  }

  /** Of the names of its file, the one whose version comes after all others. */
  ghost predicate Foremost(version: Element, order: Order, names: seq<string>, f: string) {
    && f in names
    && forall g | g in names && Stripped(version, g) == Stripped(version, f) && g != f ::
         FieldLess(order)(Sub(g, version), Sub(f, version))
  }

  /** Names that are different versions of a file are in the order of their versions. */
  lemma OrderOfVersions(es: seq<Element>, types: set<FieldType>, order: Order, v: nat, a: string, b: string)
    requires SameFile(es, types, v, a, b) && a != b
    ensures NameLess(es, types, order, a, b) <==> FieldLess(order)(Sub(a, es[v]), Sub(b, es[v]))
    ensures FieldLess(order)(Sub(a, es[v]), Sub(b, es[v])) <==> !FieldLess(order)(Sub(b, es[v]), Sub(a, es[v]))
  {
    hide Sub, StringLess, KeyFrom, Lex;
    VersionsInOrder(es, types, order, v, a, b, 1);
    if Sub(a, es[v]) == Sub(b, es[v]) {
      VersionAndRest(es, types, v, a, b);
    }
    hide SameFile;
    FieldsAreOrdered(order, Sub(a, es[v]), Sub(b, es[v]));
  }

  lemma FieldsAreOrdered(order: Order, a: string, b: string)
    requires a != b
    ensures FieldLess(order)(a, b) <==> !FieldLess(order)(b, a)
  {
    StringsAreOrdered();
    hide StringLess;
  }

  lemma {:induction false} LastIndex(version: Element, names: seq<string>, f: string) returns (i: nat)
    requires f in names
    ensures i < |names| && Stripped(version, names[i]) == Stripped(version, f)
    ensures forall j | i < j < |names| :: Stripped(version, names[j]) != Stripped(version, f)
  {
    hide Stripped;
    var n := |names| - 1;
    if Stripped(version, names[n]) == Stripped(version, f) {
      i := n;
    } else {
      i := LastIndex(version, names[..n], f);
    }
  }

  lemma LastIsForemost(es: seq<Element>, types: set<FieldType>, order: Order, v: nat, names: seq<string>, f: string)
    requires v < |es| && OneVersion(es, types, v) && Sorted(Comparator(es, types, order), names)
    requires forall n <- names :: Reaches(es, types, n) && SlashFree(n)
    ensures Last(es[v], names, (Stripped(es[v], f), f)) <==> Foremost(es[v], order, names, f)
  {
    hide Stripped, Sub, FieldLess, Reaches, SlashFree, OneVersion, NameLess;
    var less := Comparator(es, types, order);
    if Last(es[v], names, (Stripped(es[v], f), f)) {
      var i :| 0 <= i < |names| && names[i] == f
               && forall j | i < j < |names| :: Stripped(es[v], names[j]) != Stripped(es[v], f);
      forall g | g in names && Stripped(es[v], g) == Stripped(es[v], f) && g != f
        ensures FieldLess(order)(Sub(g, es[v]), Sub(f, es[v]))
      {
        var j :| 0 <= j < |names| && names[j] == g;
        assert !less(names[i], names[j]);
        OrderOfVersions(es, types, order, v, f, g);
      }
    }
    if Foremost(es[v], order, names, f) {
      var i := LastIndex(es[v], names, f);
      var g := names[i];
      if g != f {
        var j :| 0 <= j < |names| && names[j] == f;
        assert !less(names[i], names[j]);
        OrderOfVersions(es, types, order, v, g, f);
        assert false;
      }
    }
  }

  /**
   From slash-free names and a specification with one version field, ascending order keeps of every
   file the greatest version and nothing else, and descending order the least.
   */
  lemma OneVersionIsKept(es: seq<Element>, types: set<FieldType>, order: Order, v: nat, fileList: seq<string>)
    requires v < |es| && OneVersion(es, types, v)
    requires forall n <- fileList :: Reaches(es, types, n) && SlashFree(n)
    ensures var m := Versions(es[v], StableSort(Comparator(es, types, order), fileList));
            && Increasing(m)
            && forall k, f :: (k, f) in m <==> k == Stripped(es[v], f) && Foremost(es[v], order, fileList, f)
  {
    hide *;
    var less := Comparator(es, types, order);
    var sorted := StableSort(less, fileList);
    ComparatorIsStrictWeak(es, types, order);
    StableSortSorts(less, fileList);
    VersionsAreLast(es[v], sorted);
    SortedMembers(less, fileList);
    forall k, f
      ensures (k, f) in Versions(es[v], sorted) <==> k == Stripped(es[v], f) && Foremost(es[v], order, fileList, f)
    {
      if k == Stripped(es[v], f) {
        LastIsForemost(es, types, order, v, sorted, f);
        SameForemost(es[v], order, sorted, fileList, f);
      } else {
        NotLast(es[v], sorted, k, f);
      }
    }
  }

  lemma NotLast(version: Element, names: seq<string>, k: string, f: string)
    requires k != Stripped(version, f)
    ensures !Last(version, names, (k, f))
  {
  }

  lemma SameForemost(version: Element, order: Order, names: seq<string>, names': seq<string>, f: string)
    requires forall n :: n in names <==> n in names'
    ensures Foremost(version, order, names, f) <==> Foremost(version, order, names', f)
  {
  }

  lemma SortedMembers(less: (string, string) -> bool, s: seq<string>)
    requires multiset(StableSort(less, s)) == multiset(s)
    ensures forall x :: x in StableSort(less, s) <==> x in s
  {
    forall x ensures x in StableSort(less, s) <==> x in s {
      assert x in s <==> x in multiset(s);
      assert x in StableSort(less, s) <==> x in multiset(StableSort(less, s));
    }
  }
}
