/** When the filtering of versions leaves names in the order of their fields. */
module FileSpecOrder {
  import opened StringUtils
  import opened FileSpec
  import opened FileSpecSort
  import opened Sorting

  /** A field other than the version. */
  predicate IsField(e: Element) {
    e.kind != FIXED && e.kind != VERSION
  }

  /** A specification whose elements all take place, with fixed text without slashes. */
  ghost predicate Sized(es: seq<Element>, types: set<FieldType>) {
    && Tiled(es, 0)
    && FIXED !in types && (forall e <- es :: e.kind != FIXED ==> e.kind in types)
    && forall e <- es :: e.numCh > 0 && (e.kind == FIXED ==> SlashFree(e.field))
  }

  /** And with one version field. */
  ghost predicate Proper(es: seq<Element>, types: set<FieldType>, v: nat) {
    OneVersion(es, types, v) && Sized(es, types)
  }

  lemma ProperIsSized(es: seq<Element>, types: set<FieldType>, v: nat)
    requires Proper(es, types, v)
    ensures Sized(es, types)
  {
  }

  lemma SizedIsTiled(es: seq<Element>, types: set<FieldType>)
    requires Sized(es, types)
    ensures Tiled(es, 0) && FIXED !in types
    ensures forall i | 0 <= i < |es| && es[i].kind != FIXED :: es[i].kind in types && 1 <= es[i].kind < END
    ensures forall i | 0 <= i < |es| :: es[i].numCh > 0
  {
    assert forall i | 0 <= i < |es| :: es[i] in es;
  }

  /** A name of full width with the fixed text of the specification. */
  ghost predicate Full(es: seq<Element>, name: string) {
    && |name| == TotalWidth(es) && SlashFree(name)
    && forall e <- es :: e.kind == FIXED ==> Sub(name, e) == e.field
  }

  /** The fields come before the version in the order of types, and stand in that order. */
  predicate FieldsInOrder(es: seq<Element>) {
    && (forall e <- es :: IsField(e) ==> e.kind < VERSION)
    && forall i, j | 0 <= i < j < |es| && IsField(es[i]) && IsField(es[j]) :: es[i].kind <= es[j].kind
  }

  // ----- which field decides

  /** Strings that agree up to pieces of one length are in the order of the pieces. */
  lemma PieceDecides(s: string, t: string, p: nat, w: nat)
    requires p + w <= |s| && p + w <= |t| && s[..p] == t[..p] && s[p..p + w] != t[p..p + w]
    ensures StringLess(s, t) <==> StringLess(s[p..p + w], t[p..p + w])
  {
    hide Lex;
    assert s == s[..p] + s[p..] && t == t[..p] + t[p..];
    LexSamePrefix(CharLess, s[..p], s[p..], t[p..]);
    assert s[p..] == s[p..p + w] + s[p + w..] && t[p..] == t[p..p + w] + t[p + w..];
    StartDecides(CharLess, s[p..p + w], t[p..p + w], s[p + w..], t[p + w..]);
  }

  lemma {:induction false} StartDecides<T>(less: (T, T) -> bool, x: seq<T>, y: seq<T>, s: seq<T>, t: seq<T>)
    requires |x| == |y| && x != y
    ensures Lex(less, x + s, y + t) <==> Lex(less, x, y)
  {
    assert x == [x[0]] + x[1..] && y == [y[0]] + y[1..];
    assert x + s == [x[0]] + (x[1..] + s) && y + t == [y[0]] + (y[1..] + t);
    LexCons(less, x[0], y[0], x[1..] + s, y[1..] + t);
    LexCons(less, x[0], y[0], x[1..], y[1..]);
    if x[0] == y[0] {
      StartDecides(less, x[1..], y[1..], s, t);
    }
  }

  lemma {:induction false} KeySplit(es: seq<Element>, t: FieldType, k: nat, name: string)
    requires k < |es| && es[k].kind == t
    ensures KeyOfType(es, t, name)
         == KeyOfType(es[..k], t, name) + ([Sub(name, es[k])] + KeyOfType(es[k + 1..], t, name))
  {
    hide Sub;
    if k > 0 {
      KeySplit(es[1..], t, k - 1, name);
      assert es[..k][0] == es[0] && es[..k][1..] == es[1..][..k - 1] && es[1..][k..] == es[k + 1..];
    }
  }

  /** Element i comes before element k in the order of the comparison. */
  predicate ComparedBefore(es: seq<Element>, i: nat, k: nat)
    requires i < |es| && k < |es|
  {
    es[i].kind < es[k].kind || (es[i].kind == es[k].kind && i < k)
  }

  /** Names agree in the fields that are compared before element k. */
  ghost predicate AgreeBefore(es: seq<Element>, types: set<FieldType>, k: nat, a: string, b: string)
    requires k < |es|
  {
    forall i | 0 <= i < |es| && es[i].kind in types && ComparedBefore(es, i, k) :: Sub(a, es[i]) == Sub(b, es[i])
  }

  /** The first field that differs, in the order of the comparison, decides. */
  lemma {:induction false} KeyDecided(es: seq<Element>, types: set<FieldType>, order: Order, k: nat, a: string,
                                      b: string, t: FieldType)
    requires k < |es| && es[k].kind in types && t <= es[k].kind < END
    requires AgreeBefore(es, types, k, a, b) && Sub(a, es[k]) != Sub(b, es[k])
    ensures Lex(FieldLess(order), KeyFrom(es, types, t, a), KeyFrom(es, types, t, b))
       <==> FieldLess(order)(Sub(a, es[k]), Sub(b, es[k]))
    decreases es[k].kind - t
  {
    hide Lex, Sub, FieldLess, KeyFrom, KeyOfType;
    var f := FieldLess(order);
    KeyFromStep(es, types, t, a);
    KeyFromStep(es, types, t, b);
    if t == es[k].kind {
      KeyAtDifference(es, types, order, k, a, b);
    } else {
      KeyDecided(es, types, order, k, a, b, t + 1);
      if t in types {
        SameEarlierType(es, types, k, a, b, t);
        LexSamePrefix(f, KeyOfType(es, t, a), KeyFrom(es, types, t + 1, a), KeyFrom(es, types, t + 1, b));
      }
    }
  }

  lemma SameEarlierType(es: seq<Element>, types: set<FieldType>, k: nat, a: string, b: string, t: FieldType)
    requires k < |es| && t in types && t < es[k].kind && AgreeBefore(es, types, k, a, b)
    ensures KeyOfType(es, t, a) == KeyOfType(es, t, b)
  {
    hide Sub, KeyOfType;
    forall e | e in es && e.kind == t ensures Sub(a, e) == Sub(b, e) {
      var i :| 0 <= i < |es| && es[i] == e;
    }
    SameKeyOfType(es, t, a, b);
  }

  lemma KeyAtDifference(es: seq<Element>, types: set<FieldType>, order: Order, k: nat, a: string, b: string)
    requires k < |es| && es[k].kind in types && es[k].kind < END
    requires AgreeBefore(es, types, k, a, b) && Sub(a, es[k]) != Sub(b, es[k])
    ensures Lex(FieldLess(order), KeyFrom(es, types, es[k].kind, a), KeyFrom(es, types, es[k].kind, b))
       <==> FieldLess(order)(Sub(a, es[k]), Sub(b, es[k]))
  {
    hide Lex, Sub, FieldLess, KeyFrom, KeyOfType;
    var f, t := FieldLess(order), es[k].kind;
    var x, y := Sub(a, es[k]), Sub(b, es[k]);
    var p, qa, qb := KeyOfType(es[..k], t, a), KeyOfType(es[k + 1..], t, a), KeyOfType(es[k + 1..], t, b);
    var ma, mb := KeyFrom(es, types, t + 1, a), KeyFrom(es, types, t + 1, b);
    KeyFromStep(es, types, t, a);
    KeyFromStep(es, types, t, b);
    KeySplit(es, t, k, a);
    KeySplit(es, t, k, b);
    SameBeforeIndex(es, types, k, a, b);
    KeyParts(p, x, qa, ma);
    KeyParts(p, y, qb, mb);
    LexSamePrefix(f, p, [x] + (qa + ma), [y] + (qb + mb));
    LexCons(f, x, y, qa + ma, qb + mb);
  }

  lemma KeyParts<T>(p: seq<T>, x: T, q: seq<T>, m: seq<T>)
    ensures p + ([x] + q) + m == p + ([x] + (q + m))
  {
  }

  lemma SameBeforeIndex(es: seq<Element>, types: set<FieldType>, k: nat, a: string, b: string)
    requires k < |es| && es[k].kind in types && AgreeBefore(es, types, k, a, b)
    ensures KeyOfType(es[..k], es[k].kind, a) == KeyOfType(es[..k], es[k].kind, b)
  {
    hide Sub, KeyOfType;
    forall e | e in es[..k] && e.kind == es[k].kind ensures Sub(a, e) == Sub(b, e) {
      var i :| 0 <= i < k && es[..k][i] == e;
      assert es[i] == e;
    }
    SameKeyOfType(es[..k], es[k].kind, a, b);
  }

  /** Names are in the order of the first field that differs. */
  lemma NamesDecided(es: seq<Element>, types: set<FieldType>, order: Order, k: nat, a: string, b: string)
    requires k < |es| && es[k].kind in types && 1 <= es[k].kind < END
    requires AgreeBefore(es, types, k, a, b) && Sub(a, es[k]) != Sub(b, es[k])
    ensures NameLess(es, types, order, a, b) <==> FieldLess(order)(Sub(a, es[k]), Sub(b, es[k]))
  {
    hide Lex, Sub, FieldLess, KeyFrom, AgreeBefore;
    KeyDecided(es, types, order, k, a, b, 1);
  }

  // ----- stripped names

  lemma {:induction false} WidthsAdd(es: seq<Element>, i: nat)
    requires i < |es|
    ensures TotalWidth(es[..i + 1]) == TotalWidth(es[..i]) + es[i].numCh
    ensures TotalWidth(es[..i + 1]) <= TotalWidth(es)
  {
    assert es[..i + 1][1..] == es[1..][..i];
    if i > 0 {
      WidthsAdd(es[1..], i - 1);
      assert es[..i][1..] == es[1..][..i - 1];
    }
  }

  /** A full name has every element at its place. */
  lemma ElementInside(es: seq<Element>, name: string, i: nat)
    requires Tiled(es, 0) && i < |es| && |name| == TotalWidth(es)
    ensures es[i].offset == TotalWidth(es[..i]) && es[i].offset + es[i].numCh == TotalWidth(es[..i + 1]) <= |name|
    ensures Sub(name, es[i]) == name[es[i].offset..es[i].offset + es[i].numCh]
  {
    hide *;
    TiledAt(es, i);
    WidthsAdd(es, i);
    SubIs(name, es[i]);
  }

  lemma TiledAt(es: seq<Element>, i: nat)
    requires Tiled(es, 0) && i < |es|
    ensures es[i].offset == TotalWidth(es[..i])
  {
  }

  /** Names that agree in a run of elements agree in the characters of the run. */
  lemma {:induction false} RunAgrees(es: seq<Element>, a: string, b: string, i: nat, j: nat)
    requires Tiled(es, 0) && i <= j <= |es| && |a| == |b| == TotalWidth(es)
    requires forall k | i <= k < j :: Sub(a, es[k]) == Sub(b, es[k])
    ensures TotalWidth(es[..i]) <= TotalWidth(es[..j]) <= |a|
    ensures a[TotalWidth(es[..i])..TotalWidth(es[..j])] == b[TotalWidth(es[..i])..TotalWidth(es[..j])]
    decreases j - i
  {
    hide Tiled, Sub, TotalWidth;
    if i == j {
      WidthInside(es, i);
    } else {
      RunAgrees(es, a, b, i, j - 1);
      ElementInside(es, a, j - 1);
      ElementInside(es, b, j - 1);
      var x, y, z := TotalWidth(es[..i]), TotalWidth(es[..j - 1]), TotalWidth(es[..j]);
      assert a[x..z] == a[x..y] + a[y..z] && b[x..z] == b[x..y] + b[y..z];
    }
  }

  lemma {:induction false} WidthInside(es: seq<Element>, i: nat)
    requires i <= |es|
    ensures TotalWidth(es[..i]) <= TotalWidth(es)
  {
    if i < |es| {
      WidthsAdd(es, i);
    } else {
      assert es[..i] == es;
    }
  }

  /** A full name without its version. */
  lemma StrippedFull(es: seq<Element>, types: set<FieldType>, v: nat, name: string)
    requires v < |es| && Proper(es, types, v) && Full(es, name)
    ensures var o, e := TotalWidth(es[..v]), TotalWidth(es[..v + 1]);
            o <= e <= |name| && Stripped(es[v], name) == name[..o] + name[e..]
  {
    ElementInside(es, name, v);
    BaseNameOfSlashFree(name);
    hide BaseName, TotalWidth, Full;
  }

  /** Names are the same file if they agree in all fields but the version. */
  lemma SameStripped(es: seq<Element>, types: set<FieldType>, v: nat, a: string, b: string)
    requires v < |es| && Proper(es, types, v) && Full(es, a) && Full(es, b)
    requires forall i | 0 <= i < |es| && i != v :: Sub(a, es[i]) == Sub(b, es[i])
    ensures Stripped(es[v], a) == Stripped(es[v], b)
  {
    hide *;
    ProperIsTiled(es, types, v);
    StrippedFull(es, types, v, a);
    StrippedFull(es, types, v, b);
    PlacesOf(es, types, v, a, v);
    PlacesOf(es, types, v, b, v);
    RunAgrees(es, a, b, 0, v);
    RunAgrees(es, a, b, v + 1, |es|);
    StartsAtNought(es);
    assert es[..|es|] == es;
    var o, e := TotalWidth(es[..v]), TotalWidth(es[..v + 1]);
    assert a[0..o] == a[..o] && b[0..o] == b[..o] && a[e..|a|] == a[e..] && b[e..|b|] == b[e..];
  }

  lemma StartsAtNought(es: seq<Element>)
    ensures TotalWidth(es[..0]) == 0
  {
  }

  /** A piece before the cut, or after it, and what comes before the piece. */
  lemma PieceBeforeCut(n: string, o: nat, e: nat, x: nat, z: nat)
    requires x <= z <= o <= e <= |n|
    ensures var s := n[..o] + n[e..];
            z <= |s| && s[..x] == n[..x] && s[x..z] == n[x..z]
  {
  }

  lemma PieceAfterCut(n: string, o: nat, e: nat, x: nat, z: nat)
    requires o <= e <= x <= z <= |n|
    ensures var s, d := n[..o] + n[e..], e - o;
            z - d <= |s| && s[..x - d] == n[..o] + n[e..x] && s[x - d..z - d] == n[x..z]
  {
  }

  lemma PlacesOf(es: seq<Element>, types: set<FieldType>, v: nat, name: string, i: nat)
    requires v < |es| && i < |es| && Proper(es, types, v) && Full(es, name)
    ensures TotalWidth(es[..i]) <= TotalWidth(es[..i + 1]) <= |name| == TotalWidth(es)
    ensures Sub(name, es[i]) == name[TotalWidth(es[..i])..TotalWidth(es[..i + 1])]
    ensures i < v ==> TotalWidth(es[..i + 1]) <= TotalWidth(es[..v])
    ensures v < i ==> TotalWidth(es[..v + 1]) <= TotalWidth(es[..i])
  {
    hide *;
    ProperIsTiled(es, types, v);
    FullWidth(es, name);
    ElementInside(es, name, i);
    WidthsAdd(es, i);
    WidthsAdd(es, v);
    if i < v {
      WidthsGrow(es, i, v);
    } else if v < i {
      WidthsGrow(es, v, i);
    }
  }

  lemma FullWidth(es: seq<Element>, name: string)
    requires Full(es, name)
    ensures |name| == TotalWidth(es) && SlashFree(name)
    ensures forall i | 0 <= i < |es| && es[i].kind == FIXED :: Sub(name, es[i]) == es[i].field
  {
    assert forall i | 0 <= i < |es| :: es[i] in es;
  }

  lemma DecidedBeforeCut(a: string, b: string, o: nat, e: nat, x: nat, z: nat)
    requires x <= z <= o <= e <= |a| == |b|
    requires a[..x] == b[..x] && a[x..z] != b[x..z]
    ensures StringLess(a[..o] + a[e..], b[..o] + b[e..]) <==> StringLess(a[x..z], b[x..z])
  {
    hide *;
    PieceBeforeCut(a, o, e, x, z);
    PieceBeforeCut(b, o, e, x, z);
    PieceDecides(a[..o] + a[e..], b[..o] + b[e..], x, z - x);
  }

  lemma DecidedAfterCut(a: string, b: string, o: nat, e: nat, x: nat, z: nat)
    requires o <= e <= x <= z <= |a| == |b|
    requires a[..o] == b[..o] && a[e..x] == b[e..x] && a[x..z] != b[x..z]
    ensures StringLess(a[..o] + a[e..], b[..o] + b[e..]) <==> StringLess(a[x..z], b[x..z])
  {
    hide *;
    PieceAfterCut(a, o, e, x, z);
    PieceAfterCut(b, o, e, x, z);
    PieceDecides(a[..o] + a[e..], b[..o] + b[e..], x - (e - o), z - x);
  }

  /** Stripped names are in the order of the first field, by position, that differs. */
  lemma StrippedDecided(es: seq<Element>, types: set<FieldType>, v: nat, a: string, b: string, i: nat)
    requires v < |es| && i < |es| && i != v && Proper(es, types, v) && Full(es, a) && Full(es, b)
    requires forall k | 0 <= k < i && k != v :: Sub(a, es[k]) == Sub(b, es[k])
    requires Sub(a, es[i]) != Sub(b, es[i])
    ensures StringLess(Stripped(es[v], a), Stripped(es[v], b)) <==> StringLess(Sub(a, es[i]), Sub(b, es[i]))
  {
    hide *;
    var o, e, x, z := TotalWidth(es[..v]), TotalWidth(es[..v + 1]), TotalWidth(es[..i]), TotalWidth(es[..i + 1]);
    ProperIsTiled(es, types, v);
    StrippedFull(es, types, v, a);
    StrippedFull(es, types, v, b);
    PlacesOf(es, types, v, a, i);
    PlacesOf(es, types, v, b, i);
    StartsAtNought(es);
    if i < v {
      RunAgrees(es, a, b, 0, i);
      assert a[0..x] == a[..x] && b[0..x] == b[..x];
      DecidedBeforeCut(a, b, o, e, x, z);
    } else {
      RunAgrees(es, a, b, 0, v);
      RunAgrees(es, a, b, v + 1, i);
      assert a[0..o] == a[..o] && b[0..o] == b[..o];
      DecidedAfterCut(a, b, o, e, x, z);
    }
  }

  lemma ProperIsTiled(es: seq<Element>, types: set<FieldType>, v: nat)
    requires Proper(es, types, v)
    ensures Tiled(es, 0) && VERSION in types && v < |es| && es[v].kind == VERSION
    ensures forall i | 0 <= i < |es| && i != v :: es[i].kind != VERSION
    ensures forall i | 0 <= i < |es| && es[i].kind != FIXED :: es[i].kind in types && 1 <= es[i].kind < END
    ensures FIXED !in types && First(es, VERSION) == v
    ensures forall e <- es :: e.numCh > 0
  {
    assert forall i | 0 <= i < |es| :: es[i] in es;
  }

  /** Names with different stripped names differ in a field; this is the first by position. */
  lemma {:induction false} FirstDifference(es: seq<Element>, types: set<FieldType>, v: nat, a: string, b: string,
                                           i: nat)
    returns (d: nat)
    requires v < |es| && Proper(es, types, v) && Full(es, a) && Full(es, b) && Stripped(es[v], a) != Stripped(es[v], b)
    requires i <= |es| && forall k | 0 <= k < i && k != v :: Sub(a, es[k]) == Sub(b, es[k])
    ensures d < |es| && IsField(es[d]) && Sub(a, es[d]) != Sub(b, es[d])
    ensures forall k | 0 <= k < d && k != v :: Sub(a, es[k]) == Sub(b, es[k])
    decreases |es| - i
  {
    hide Sub, Stripped, Full, Proper;
    ProperIsTiled(es, types, v);
    FullWidth(es, a);
    FullWidth(es, b);
    d := i;
    if i == |es| {
      SameStripped(es, types, v, a, b);
      assert false;
    } else if i == v || Sub(a, es[i]) == Sub(b, es[i]) {
      d := FirstDifference(es, types, v, a, b, i + 1);
    }
  }

  // ----- fields in order

  ghost predicate AllFull(es: seq<Element>, names: seq<string>) {
    forall n <- names :: Full(es, n)
  }

  lemma FullReaches(es: seq<Element>, types: set<FieldType>, v: nat, name: string)
    requires Proper(es, types, v) && Full(es, name)
    ensures Reaches(es, types, name) && SlashFree(name)
  {
    hide Full, Sub;
    FullWidth(es, name);
    forall e | e in es ensures e.offset <= |name| {
      var i :| 0 <= i < |es| && es[i] == e;
      ElementInside(es, name, i);
    }
  }

  /** With fields in order, stripped names in order are names in order. */
  lemma OrderCarriesOver(es: seq<Element>, types: set<FieldType>, v: nat, a: string, b: string)
    requires v < |es| && Proper(es, types, v) && FieldsInOrder(es) && Full(es, a) && Full(es, b)
    requires StringLess(Stripped(es[v], a), Stripped(es[v], b))
    ensures !NameLess(es, types, Ascending, b, a)
  {
    hide Sub, Stripped, Full, Proper, NameLess, StringLess;
    StringsAreOrdered();
    var d := FirstDifference(es, types, v, a, b, 0);
    ProperIsTiled(es, types, v);
    StrippedDecided(es, types, v, a, b, d);
    BeforeInOrder(es, types, v, a, b, d);
    NamesDecided(es, types, Ascending, d, b, a);
    hide StrictTotal;
    FieldLessIs(Ascending, Sub(b, es[d]), Sub(a, es[d]));
    LessOneWay(Sub(a, es[d]), Sub(b, es[d]));
  }

  lemma LessOneWay(s: string, t: string)
    requires StringLess(s, t)
    ensures !StringLess(t, s)
  {
    StringsAreOrdered();
    hide StringLess;
  }

  lemma BeforeInOrder(es: seq<Element>, types: set<FieldType>, v: nat, a: string, b: string, d: nat)
    requires v < |es| && d < |es| && Proper(es, types, v) && FieldsInOrder(es) && IsField(es[d])
    requires forall k | 0 <= k < d && k != v :: Sub(a, es[k]) == Sub(b, es[k])
    ensures AgreeBefore(es, types, d, b, a)
  {
    hide Sub, Proper;
    ProperIsTiled(es, types, v);
    assert es[d] in es;
  }

  ghost predicate KeepsOrder(es: seq<Element>, types: set<FieldType>, order: Order)
    requires VERSION in types ==> First(es, VERSION) < |es|
  {
    forall names | AllFull(es, names) :: Sorted(Comparator(es, types, order), Listed(es, types, order, names))
  }

  /** What is listed: full names whose stripped names increase. */
  lemma ListedIncreases(es: seq<Element>, types: set<FieldType>, order: Order, v: nat, names: seq<string>)
    requires v < |es| && Proper(es, types, v) && AllFull(es, names)
    ensures VERSION in types && First(es, VERSION) == v
    ensures var r := Listed(es, types, order, names);
            && AllFull(es, r)
            && (forall i, j | 0 <= i < j < |r| :: StringLess(Stripped(es[v], r[i]), Stripped(es[v], r[j])))
            && forall f :: f in r <==> Foremost(es[v], order, names, f)
  {
    hide Full, Sub, Stripped, StringLess, Proper, Versions, StableSort;
    ProperIsTiled(es, types, v);
    ProperHasOneVersion(es, types, v);
    forall n | n in names ensures Reaches(es, types, n) && SlashFree(n) {
      FullReaches(es, types, v, n);
    }
    OneVersionIsKept(es, types, order, v, names);
    hide Reaches, SlashFree;
    var m := Versions(es[v], StableSort(Comparator(es, types, order), names));
    hide Comparator;
    assert forall i | 0 <= i < |m| :: (m[i].0, m[i].1) in m;
    var r := Files(m);
    assert r == Listed(es, types, order, names);
    forall f ensures f in r <==> Foremost(es[v], order, names, f) {
      if Foremost(es[v], order, names, f) {
        assert (Stripped(es[v], f), f) in m;
        var i :| 0 <= i < |m| && m[i] == (Stripped(es[v], f), f);
        assert r[i] == f;
      }
      if f in r {
        var i :| 0 <= i < |r| && r[i] == f;
        assert (m[i].0, f) in m;
      }
    }
  }

  lemma ProperHasOneVersion(es: seq<Element>, types: set<FieldType>, v: nat)
    requires Proper(es, types, v)
    ensures OneVersion(es, types, v)
  {
  }

  // ----- names for a specification

  /** The text of an element: its own, or one digit for the field at `o1`, one for that at `o2` and 0. */
  function Filled(o1: nat, c1: char, o2: nat, c2: char): Element -> string {
    (e: Element) =>
      if e.kind == FIXED then e.field
      else Repeat(if e.offset == o1 then c1 else if e.offset == o2 then c2 else '0', e.numCh)
  }

  function Named(es: seq<Element>, i: nat, c1: char, j: nat, c2: char): string
    requires i < |es| && j < |es|
  {
    Concat(es, Filled(es[i].offset, c1, es[j].offset, c2))
  }

  lemma NamedIsFull(es: seq<Element>, types: set<FieldType>, i: nat, c1: char, j: nat, c2: char)
    requires i < |es| && j < |es| && Sized(es, types) && c1 != '/' && c2 != '/'
    ensures Full(es, Named(es, i, c1, j, c2))
    ensures forall k | 0 <= k < |es| ::
              Sub(Named(es, i, c1, j, c2), es[k]) == Filled(es[i].offset, c1, es[j].offset, c2)(es[k])
  {
    hide *;
    var f, name := Filled(es[i].offset, c1, es[j].offset, c2), Named(es, i, c1, j, c2);
    SizedIsTiled(es, types);
    NamedIs(es, i, c1, j, c2);
    FilledFits(es, types, es[i].offset, c1, es[j].offset, c2);
    ConcatLacks(es, f, '/');
    PieceAt(es, f, 0);
    forall k | 0 <= k < |es| ensures Sub(name, es[k]) == f(es[k]) {
      PieceAt(es, f, k);
      ElementInside(es, name, k);
      assert name[es[k].offset..][..es[k].numCh] == name[es[k].offset..es[k].offset + es[k].numCh];
    }
    NamedHasText(es, name, es[i].offset, c1, es[j].offset, c2);
  }

  lemma NamedIs(es: seq<Element>, i: nat, c1: char, j: nat, c2: char)
    requires i < |es| && j < |es|
    ensures Named(es, i, c1, j, c2) == Concat(es, Filled(es[i].offset, c1, es[j].offset, c2))
  {
  }

  lemma FilledFits(es: seq<Element>, types: set<FieldType>, o1: nat, c1: char, o2: nat, c2: char)
    requires Sized(es, types) && c1 != '/' && c2 != '/'
    ensures forall e <- es :: |Filled(o1, c1, o2, c2)(e)| == e.numCh && '/' !in Filled(o1, c1, o2, c2)(e)
  {
    forall e | e in es ensures |Filled(o1, c1, o2, c2)(e)| == e.numCh && '/' !in Filled(o1, c1, o2, c2)(e) {
      var k :| 0 <= k < |es| && es[k] == e;
    }
  }

  lemma NamedHasText(es: seq<Element>, name: string, o1: nat, c1: char, o2: nat, c2: char)
    requires |name| == TotalWidth(es) && '/' !in name
    requires forall k | 0 <= k < |es| :: Sub(name, es[k]) == Filled(o1, c1, o2, c2)(es[k])
    ensures Full(es, name)
  {
    hide Sub, TotalWidth;
    forall e | e in es && e.kind == FIXED ensures Sub(name, e) == e.field {
      var k :| 0 <= k < |es| && es[k] == e;
    }
  }

  lemma OffsetsDiffer(es: seq<Element>, types: set<FieldType>, i: nat, j: nat)
    requires i < |es| && j < |es| && i != j && Sized(es, types)
    ensures es[i].offset != es[j].offset
  {
    SizedIsTiled(es, types);
    hide Sized;
    assert es[i] in es && es[j] in es;
    if i < j {
      OffsetsGrow(es, i, j);
    } else {
      OffsetsGrow(es, j, i);
    }
  }

  /** Two names: the first has the smaller digits in field i, and the larger ones in field j. */
  lemma Crossed(es: seq<Element>, types: set<FieldType>, v: nat, i: nat, j: nat) returns (a: string, b: string)
    requires i < |es| && j < |es| && i != j && Proper(es, types, v) && es[i].kind != FIXED && es[j].kind != FIXED
    ensures Full(es, a) && Full(es, b)
    ensures forall k | 0 <= k < |es| && k != i && k != j :: Sub(a, es[k]) == Sub(b, es[k])
    ensures Sub(a, es[i]) == Repeat('0', es[i].numCh) && Sub(b, es[i]) == Repeat('1', es[i].numCh)
    ensures Sub(a, es[j]) == Repeat('1', es[j].numCh) && Sub(b, es[j]) == Repeat('0', es[j].numCh)
  {
    ProperIsSized(es, types, v);
    hide Sub, Full, Proper;
    a, b := Named(es, i, '0', j, '1'), Named(es, i, '1', j, '0');
    NamedIsFull(es, types, i, '0', j, '1');
    NamedIsFull(es, types, i, '1', j, '0');
    OffsetsDiffer(es, types, i, j);
    hide Named;
    forall k | 0 <= k < |es| && k != i && k != j ensures Sub(a, es[k]) == Sub(b, es[k]) {
      OffsetsDiffer(es, types, i, k);
      OffsetsDiffer(es, types, j, k);
    }
  }

  lemma NoughtsAndOnes(n: nat)
    requires n > 0
    ensures StringLess(Repeat('0', n), Repeat('1', n)) && !StringLess(Repeat('1', n), Repeat('0', n))
    ensures Repeat('0', n) != Repeat('1', n)
  {
    assert Repeat('0', n)[0] != Repeat('1', n)[0];
  }

  /** Two names whose stripped names and whose fields are in different orders make a list that is not kept in order. */
  lemma TwoOutOfOrder(es: seq<Element>, types: set<FieldType>, order: Order, v: nat, a: string, b: string)
    requires v < |es| && Proper(es, types, v) && Full(es, a) && Full(es, b)
    requires StringLess(Stripped(es[v], a), Stripped(es[v], b)) && NameLess(es, types, order, b, a)
    ensures VERSION in types && First(es, VERSION) == v
    ensures AllFull(es, [a, b]) && !Sorted(Comparator(es, types, order), Listed(es, types, order, [a, b]))
  {
    hide *;
    LessOneWay(Stripped(es[v], a), Stripped(es[v], b));
    BothFull(es, a, b);
    ListedIncreases(es, types, order, v, [a, b]);
    BothForemost(es[v], order, a, b);
    ListedIncreasing(es[v], Listed(es, types, order, [a, b]), a, b);
    ComparatorIs(es, types, order, b, a);
    NotSorted(Comparator(es, types, order), Listed(es, types, order, [a, b]), a, b);
  }

  lemma BothFull(es: seq<Element>, a: string, b: string)
    requires Full(es, a) && Full(es, b)
    ensures AllFull(es, [a, b])
  {
  }

  lemma ComparatorIs(es: seq<Element>, types: set<FieldType>, order: Order, l: string, r: string)
    ensures Comparator(es, types, order)(l, r) == NameLess(es, types, order, l, r)
  {
  }

  lemma BothForemost(version: Element, order: Order, a: string, b: string)
    requires Stripped(version, a) != Stripped(version, b)
    ensures Foremost(version, order, [a, b], a) && Foremost(version, order, [a, b], b)
  {
    hide Stripped, FieldLess;
    assert forall n <- [a, b] :: n == a || n == b;
    assert a in [a, b] && b in [a, b];
  }

  /** In a list whose stripped names increase, the lesser one comes first. */
  lemma ListedIncreasing(version: Element, r: seq<string>, a: string, b: string)
    requires forall i, j | 0 <= i < j < |r| :: StringLess(Stripped(version, r[i]), Stripped(version, r[j]))
    requires a in r && b in r && !StringLess(Stripped(version, b), Stripped(version, a)) && a != b
    ensures exists i, j :: 0 <= i < j < |r| && r[i] == a && r[j] == b
  {
    hide Stripped, StringLess;
    var i :| 0 <= i < |r| && r[i] == a;
    var j :| 0 <= j < |r| && r[j] == b;
    assert i < j;
  }

  lemma NotSorted(less: (string, string) -> bool, r: seq<string>, a: string, b: string)
    requires less(b, a) && exists i, j :: 0 <= i < j < |r| && r[i] == a && r[j] == b
    ensures !Sorted(less, r)
  {
  }

  /** A field before another that is compared first gives such a pair. */
  lemma WrongPair(es: seq<Element>, types: set<FieldType>, v: nat, i: nat, j: nat)
    requires v < |es| && i < |es| && j < |es| && Proper(es, types, v)
    requires IsField(es[i]) && es[j].kind != FIXED && (j == v || i < j) && es[j].kind < es[i].kind
    requires VERSION in types ==> First(es, VERSION) < |es|
    ensures !KeepsOrder(es, types, Ascending)
  {
    hide *;
    ProperIsTiled(es, types, v);
    FieldOrVersion(es, types, v, i, j);
    var a, b := Crossed(es, types, v, i, j);
    NoughtsAndOnes(es[i].numCh);
    NoughtsAndOnes(es[j].numCh);
    StrippedDecided(es, types, v, a, b, i);
    OnlyCrossed(es, types, i, j, a, b);
    NamesDecided(es, types, Ascending, j, b, a);
    FieldLessIs(Ascending, Sub(b, es[j]), Sub(a, es[j]));
    TwoOutOfOrder(es, types, Ascending, v, a, b);
    NotKept(es, types, Ascending, [a, b]);
  }

  lemma FieldOrVersion(es: seq<Element>, types: set<FieldType>, v: nat, i: nat, j: nat)
    requires v < |es| && i < |es| && j < |es| && Proper(es, types, v)
    requires IsField(es[i]) && es[j].kind != FIXED
    ensures i != v && es[i].numCh > 0 && es[j].numCh > 0 && es[i].kind != FIXED
    ensures 1 <= es[j].kind < END && es[j].kind in types && es[i].kind in types && 1 <= es[i].kind < END
  {
    ProperIsTiled(es, types, v);
    assert es[i] in es && es[j] in es;
  }

  lemma OnlyCrossed(es: seq<Element>, types: set<FieldType>, i: nat, j: nat, a: string, b: string)
    requires i < |es| && j < |es| && es[j].kind < es[i].kind
    requires forall k | 0 <= k < |es| && k != i && k != j :: Sub(a, es[k]) == Sub(b, es[k])
    ensures AgreeBefore(es, types, j, b, a)
  {
    hide Sub;
  }

  lemma NotKept(es: seq<Element>, types: set<FieldType>, order: Order, names: seq<string>)
    requires VERSION in types ==> First(es, VERSION) < |es|
    requires AllFull(es, names) && !Sorted(Comparator(es, types, order), Listed(es, types, order, names))
    ensures !KeepsOrder(es, types, order)
  {
  }

  /**
   Listing in ascending order keeps the order of the fields exactly if the fields other than the
   version come before it in the order of types and stand in that order.
   */
  lemma AscendingKeepsOrder(es: seq<Element>, types: set<FieldType>, v: nat)
    requires v < |es| && Proper(es, types, v)
    ensures VERSION in types && First(es, VERSION) == v
    ensures KeepsOrder(es, types, Ascending) <==> FieldsInOrder(es)
  {
    hide *;
    ProperIsTiled(es, types, v);
    if FieldsInOrder(es) {
      forall names | AllFull(es, names)
        ensures Sorted(Comparator(es, types, Ascending), Listed(es, types, Ascending, names))
      {
        InOrderIsSorted(es, types, v, names);
      }
      KeptIf(es, types, Ascending);
    } else {
      var i, j := OutOfOrder(es, types, v);
      WrongPair(es, types, v, i, j);
    }
  }

  lemma KeptIf(es: seq<Element>, types: set<FieldType>, order: Order)
    requires VERSION in types ==> First(es, VERSION) < |es|
    requires forall names | AllFull(es, names) :: Sorted(Comparator(es, types, order), Listed(es, types, order, names))
    ensures KeepsOrder(es, types, order)
  {
  }

  lemma InOrderIsSorted(es: seq<Element>, types: set<FieldType>, v: nat, names: seq<string>)
    requires v < |es| && Proper(es, types, v) && FieldsInOrder(es) && AllFull(es, names)
    requires VERSION in types ==> First(es, VERSION) < |es|
    ensures Sorted(Comparator(es, types, Ascending), Listed(es, types, Ascending, names))
  {
    hide Full, Proper, Stripped, NameLess, StringLess, Listed, Foremost, FieldsInOrder;
    ListedIncreases(es, types, Ascending, v, names);
    var r := Listed(es, types, Ascending, names);
    forall i, j | 0 <= i < j < |r| ensures !NameLess(es, types, Ascending, r[j], r[i]) {
      OrderCarriesOver(es, types, v, r[i], r[j]);
    }
  }

  /** Where the order of the fields is broken. */
  lemma OutOfOrder(es: seq<Element>, types: set<FieldType>, v: nat) returns (i: nat, j: nat)
    requires v < |es| && Proper(es, types, v) && !FieldsInOrder(es)
    ensures i < |es| && j < |es| && IsField(es[i]) && es[j].kind != FIXED
    ensures (j == v || i < j) && es[j].kind < es[i].kind
  {
    ProperIsTiled(es, types, v);
    hide Proper;
    if e :| e in es && IsField(e) && e.kind >= VERSION {
      i :| 0 <= i < |es| && es[i] == e;
      j := v;
    } else {
      i, j :| 0 <= i < j < |es| && IsField(es[i]) && IsField(es[j]) && es[i].kind > es[j].kind;
    }
  }

  // ----- descending

  /** Listing in descending order keeps it exactly if there is no field but the version. */
  lemma DescendingKeepsOrder(es: seq<Element>, types: set<FieldType>, v: nat)
    requires v < |es| && Proper(es, types, v)
    ensures VERSION in types && First(es, VERSION) == v
    ensures KeepsOrder(es, types, Descending) <==> forall i | 0 <= i < |es| :: !IsField(es[i])
  {
    hide *;
    ProperIsTiled(es, types, v);
    if forall i | 0 <= i < |es| :: !IsField(es[i]) {
      forall names | AllFull(es, names)
        ensures Sorted(Comparator(es, types, Descending), Listed(es, types, Descending, names))
      {
        VersionOnlyIsSorted(es, types, v, names);
      }
      KeptIf(es, types, Descending);
    } else {
      var i :| 0 <= i < |es| && IsField(es[i]);
      ReversedPair(es, types, v, i);
    }
  }

  lemma VersionOnlyIsSorted(es: seq<Element>, types: set<FieldType>, v: nat, names: seq<string>)
    requires v < |es| && Proper(es, types, v) && AllFull(es, names) && forall i | 0 <= i < |es| :: !IsField(es[i])
    requires VERSION in types ==> First(es, VERSION) < |es|
    ensures Sorted(Comparator(es, types, Descending), Listed(es, types, Descending, names))
  {
    hide Full, Proper, Stripped, NameLess, StringLess, Listed, Foremost, IsField;
    ListedIncreases(es, types, Descending, v, names);
    var r := Listed(es, types, Descending, names);
    if |r| > 1 {
      LessIsDifferent(Stripped(es[v], r[0]), Stripped(es[v], r[1]));
      var d := FirstDifference(es, types, v, r[0], r[1], 0);
      assert false;
    }
  }

  lemma LessIsDifferent(s: string, t: string)
    requires StringLess(s, t)
    ensures s != t
  {
    LessOneWay(s, t);
  }

  lemma ReversedPair(es: seq<Element>, types: set<FieldType>, v: nat, i: nat)
    requires v < |es| && i < |es| && Proper(es, types, v) && IsField(es[i])
    requires VERSION in types ==> First(es, VERSION) < |es|
    ensures !KeepsOrder(es, types, Descending)
  {
    hide *;
    ProperIsTiled(es, types, v);
    ProperIsSized(es, types, v);
    FieldIsCompared(es, types, v, i);
    var a, b := Named(es, i, '0', i, '0'), Named(es, i, '1', i, '1');
    NamedIsFull(es, types, i, '0', i, '0');
    NamedIsFull(es, types, i, '1', i, '1');
    OnlyThere(es, types, i, a, b);
    NoughtsAndOnes(es[i].numCh);
    StrippedDecided(es, types, v, a, b, i);
    NamesDecided(es, types, Descending, i, b, a);
    FieldLessIs(Descending, Sub(b, es[i]), Sub(a, es[i]));
    TwoOutOfOrder(es, types, Descending, v, a, b);
    NotKept(es, types, Descending, [a, b]);
  }

  lemma FieldIsCompared(es: seq<Element>, types: set<FieldType>, v: nat, i: nat)
    requires v < |es| && i < |es| && Proper(es, types, v) && IsField(es[i])
    ensures i != v && es[i].numCh > 0 && es[i].kind in types && 1 <= es[i].kind < END && es[i].kind != FIXED
  {
    FieldOrVersion(es, types, v, i, i);
  }

  lemma OnlyThere(es: seq<Element>, types: set<FieldType>, i: nat, a: string, b: string)
    requires i < |es| && Sized(es, types) && es[i].kind != FIXED
    requires forall k | 0 <= k < |es| :: Sub(a, es[k]) == Filled(es[i].offset, '0', es[i].offset, '0')(es[k])
    requires forall k | 0 <= k < |es| :: Sub(b, es[k]) == Filled(es[i].offset, '1', es[i].offset, '1')(es[k])
    ensures forall k | 0 <= k < |es| && k != i :: Sub(a, es[k]) == Sub(b, es[k])
    ensures AgreeBefore(es, types, i, b, a)
    ensures Sub(a, es[i]) == Repeat('0', es[i].numCh) && Sub(b, es[i]) == Repeat('1', es[i].numCh)
  {
    hide Sub, Sized;
    forall k | 0 <= k < |es| && k != i ensures Sub(a, es[k]) == Sub(b, es[k]) {
      OffsetsDiffer(es, types, i, k);
    }
  }

  // ----- the usual case

  /** A year and a version: types put the version first. */
  const YEAR_VERSION: seq<Element> := [Element(1, 0, FIRST_TIME, "%1y"), Element(1, 1, VERSION, "%1v")]

  lemma YearVersionIsProper()
    ensures Proper(YEAR_VERSION, {VERSION, FIRST_TIME}, 1)
    ensures Full(YEAR_VERSION, "12") && Full(YEAR_VERSION, "21")
    ensures Sub("12", YEAR_VERSION[0]) == "1" == Sub("21", YEAR_VERSION[1])
    ensures Sub("21", YEAR_VERSION[0]) == "2" == Sub("12", YEAR_VERSION[1])
  {
    var es := YEAR_VERSION;
    WidthsOfTwo(es[0], es[1]);
    assert es == [es[0], es[1]] && es[..0] == [] && es[..1] == [es[0]];
    assert forall e <- es :: e == es[0] || e == es[1];
    hide TotalWidth;
  }

  lemma WidthsOfTwo(d: Element, e: Element)
    ensures TotalWidth([]) == 0 && TotalWidth([d]) == d.numCh && TotalWidth([d, e]) == d.numCh + e.numCh
  {
    assert [d][1..] == [] && [d, e][1..] == [e] && [e][1..] == [];
    assert TotalWidth([e]) == e.numCh;
  }

  lemma OneAndTwo()
    ensures StringLess("1", "2") && !StringLess("2", "1")
  {
  }

  /** So year 1 version 2 is listed before year 2 version 1, and the fields want them the other way round. */
  lemma FilteringForgetsTheOrder()
    ensures var es, types := YEAR_VERSION, {VERSION, FIRST_TIME};
            && First(es, VERSION) == 1
            && !Sorted(Comparator(es, types, Ascending), Listed(es, types, Ascending, ["12", "21"]))
  {
    hide Sub, Full, Proper, Stripped, Lex, NameLess, Listed, FieldLess, StringLess;
    var es, types := YEAR_VERSION, {VERSION, FIRST_TIME};
    YearVersionIsProper();
    OneAndTwo();
    StrippedDecided(es, types, 1, "12", "21", 0);
    NamesDecided(es, types, Ascending, 1, "21", "12");
    FieldLessIs(Ascending, "1", "2");
    TwoOutOfOrder(es, types, Ascending, 1, "12", "21");
  }

  // ----- names with directories

  /** The order of paths is that of the files' own names. */
  ghost predicate ComparesFiles(es: seq<Element>, types: set<FieldType>, order: Order) {
    forall d, d', a, b | Full(es, a) && Full(es, b) ::
      NameLess(es, types, order, d + "/" + a, d' + "/" + b) <==> NameLess(es, types, order, a, b)
  }

  lemma {:induction false} NoFieldsNoKey(es: seq<Element>, types: set<FieldType>, t: FieldType, name: string)
    requires forall e <- es :: e.kind !in types
    ensures KeyFrom(es, types, t, name) == []
    decreases END - t
  {
    if t < END {
      NoFieldsNoKey(es, types, t + 1, name);
      KeyFromStep(es, types, t, name);
      if t in types {
        NoKeyOfType(es, t, name);
      }
    }
  }

  /** Only what a name starts with is compared. */
  lemma {:induction false} StartIsCompared(es: seq<Element>, types: set<FieldType>, t: FieldType, w: nat, a: string,
                                           b: string)
    requires w <= |a| && w <= |b| && a[..w] == b[..w] && forall e <- es :: e.offset + e.numCh <= w
    ensures KeyFrom(es, types, t, a) == KeyFrom(es, types, t, b)
  {
    forall e | e in es ensures Sub(a, e) == Sub(b, e) {
      SubIs(a, e);
      SubIs(b, e);
      hide Sub;
      PrefixSlice(a, w, e.offset, e.offset + e.numCh);
      PrefixSlice(b, w, e.offset, e.offset + e.numCh);
    }
    hide Sub;
    SameKeyFrom(es, types, t, a, b);
  }

  /**
   The comparison looks at whole paths from their start: it goes by the files' own names exactly if
   there is nothing to compare.
   */
  lemma PathsAreCompared(es: seq<Element>, types: set<FieldType>, order: Order)
    requires Sized(es, types)
    ensures ComparesFiles(es, types, order) <==> forall i | 0 <= i < |es| :: es[i].kind !in types
  {
    hide *;
    if i :| 0 <= i < |es| && es[i].kind in types {
      PathsMixField(es, types, order, i);
    } else {
      NothingToCompare(es, types, order);
    }
  }

  lemma NothingToCompare(es: seq<Element>, types: set<FieldType>, order: Order)
    requires forall i | 0 <= i < |es| :: es[i].kind !in types
    ensures ComparesFiles(es, types, order)
  {
    hide Full, KeyFrom, FieldLess;
    forall name ensures Key(es, types, name) == [] {
      NoFieldsNoKey(es, types, 1, name);
    }
  }

  /** Two names that differ in a field, and not at all behind a long directory. */
  lemma PathsMixField(es: seq<Element>, types: set<FieldType>, order: Order, i: nat)
    requires i < |es| && Sized(es, types) && es[i].kind in types
    ensures !ComparesFiles(es, types, order)
  {
    hide *;
    SizedIsTiled(es, types);
    FieldIsNotFixed(es, types, i);
    var a, b := Named(es, i, '0', i, '0'), Named(es, i, '1', i, '1');
    NamedIsFull(es, types, i, '0', i, '0');
    NamedIsFull(es, types, i, '1', i, '1');
    OnlyThere(es, types, i, a, b);
    NoughtsAndOnes(es[i].numCh);
    NamesDecided(es, types, order, i, b, a);
    AgreeBothWays(es, types, i, a, b);
    NamesDecided(es, types, order, i, a, b);
    FieldLessIs(order, Sub(a, es[i]), Sub(b, es[i]));
    FieldLessIs(order, Sub(b, es[i]), Sub(a, es[i]));
    var d := Repeat('0', TotalWidth(es));
    SameDirectory(es, types, order, d, a, b);
    NotByFiles(es, types, order, d, a, b);
  }

  lemma FieldIsNotFixed(es: seq<Element>, types: set<FieldType>, i: nat)
    requires i < |es| && Sized(es, types) && es[i].kind in types
    ensures es[i].kind != FIXED
  {
  }

  lemma AgreeBothWays(es: seq<Element>, types: set<FieldType>, k: nat, a: string, b: string)
    requires k < |es| && AgreeBefore(es, types, k, b, a)
    ensures AgreeBefore(es, types, k, a, b)
  {
    hide Sub;
  }

  lemma SameDirectory(es: seq<Element>, types: set<FieldType>, order: Order, d: string, a: string, b: string)
    requires Sized(es, types) && |d| == TotalWidth(es)
    ensures !NameLess(es, types, order, d + "/" + a, d + "/" + b)
    ensures !NameLess(es, types, order, d + "/" + b, d + "/" + a)
  {
    hide TotalWidth, Lex, KeyFrom;
    var w, x, y := |d|, d + "/" + a, d + "/" + b;
    SizedIsTiled(es, types);
    forall e | e in es ensures e.offset + e.numCh <= w {
      var i :| 0 <= i < |es| && es[i] == e;
      ElementInside(es, d, i);
    }
    hide Sized, Tiled;
    assert x[..w] == d == y[..w];
    StartIsCompared(es, types, 1, w, x, y);
    LexIrreflexive(FieldLess(order), Key(es, types, x));
  }

  /** For example, these two files are in the order of their own names, and their paths are not. */
  lemma PathsNotCompared()
    ensures var es, types := [Element(1, 0, STATION, "%1n")], {STATION};
            NameLess(es, types, Ascending, "1", "2") && !NameLess(es, types, Ascending, "b/" + "1", "a/" + "2")
  {
    var es, types := [Element(1, 0, STATION, "%1n")], {STATION};
    OneAndTwo();
    assert Sub("1", es[0]) == "1" && Sub("2", es[0]) == "2";
    assert Sub("b/" + "1", es[0]) == "b" && Sub("a/" + "2", es[0]) == "a";
    assert !StringLess("b", "a");
    hide Sub, StringLess, Lex;
    NamesDecided(es, types, Ascending, 0, "1", "2");
    NamesDecided(es, types, Ascending, 0, "b/" + "1", "a/" + "2");
    FieldLessIs(Ascending, "1", "2");
    FieldLessIs(Ascending, "b", "a");
  }

  lemma NotByFiles(es: seq<Element>, types: set<FieldType>, order: Order, d: string, a: string, b: string)
    requires Full(es, a) && Full(es, b)
    requires !NameLess(es, types, order, d + "/" + a, d + "/" + b)
    requires !NameLess(es, types, order, d + "/" + b, d + "/" + a)
    requires NameLess(es, types, order, a, b) || NameLess(es, types, order, b, a)
    ensures !ComparesFiles(es, types, order)
  {
    hide Full, NameLess;
  }
}
