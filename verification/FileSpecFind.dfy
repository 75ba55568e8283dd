/**
 The search for files that fit a specification.  The search goes through the directory levels of the
 specification, and looks further only below names that pass a level's tests.
 */
module FileSpecFind {
  import opened Prelude
  import opened StringUtils
  import opened FileSpec
  import opened Glob
  import opened FileSpecPattern

  /** Allowed values of fields, in the order of a std::multimap. */
  type Filter = seq<(FieldType, string)>

  /**
   A search.  `show` makes a name for a specification and a time, and `scan` gets the time from a
   name; both belong to the time library.
   */
  datatype Search = Search(spec: string, fromTime: real, toTime: real,
                           show: (string, real) -> string, scan: (string, string) -> real, filter: Filter)

  // ----- where a level starts and ends

  /** The first place of `c` from `pos` on, or the end of the string. */
  function Find(s: string, c: char, pos: nat): (k: nat)
    requires pos <= |s|
    ensures pos <= k <= |s|
    ensures k < |s| ==> s[k] == c
    ensures forall i | pos <= i < k :: s[i] != c
    decreases |s| - pos
  {
    if pos == |s| || s[pos] == c then pos else Find(s, c, pos + 1)
  }

  /** The last slash. */
  function LastSlash(s: string): (k: Option<nat>)
    ensures k == None ==> '/' !in s
    ensures k.Some? ==> k.value < |s| && s[k.value] == '/' && '/' !in s[k.value + 1..]
  {
    if s == "" then None
    else if s[|s| - 1] == '/' then Some(|s| - 1) else LastSlash(s[..|s| - 1])
  }

  /** Where the part of the specification that a level matches ends. */
  function LevelEnd(spec: string, pos: nat): (k: nat)
    requires pos <= |spec|
    ensures pos <= k <= |spec|
    ensures k < |spec| ==> pos < k && spec[k] == '/' && '%' in spec[pos..k]
    ensures forall i, j | pos <= i < j < k && spec[i] == '%' :: spec[j] != '/'
  {
    var stokpos := Find(spec, '%', pos);
    if stokpos == |spec| then |spec| else Find(spec, '/', stokpos + 1)
  }

  /**
   The part of a level whose fields are tested: what follows the last slash before its first field.
   Without a slash there, it is what follows the field's '%'.
   */
  function Current(spec: string, pos: nat): string
    requires pos <= |spec|
  {
    var stokpos, end := Find(spec, '%', pos), LevelEnd(spec, pos);
    match LastSlash(spec[..stokpos])
    case Some(k) => spec[k + 1..end]
    case None => if stokpos == |spec| then spec else spec[stokpos + 1..end]
  }

  // ----- the tests of a level

  function TypesOf(spec: string): set<FieldType> {
    FieldTypes(Parse(spec, 0).elements)
  }

  predicate HasTimeField(types: set<FieldType>) {
    exists t <- types :: FIRST_TIME <= t
  }

  /** The bounds of the search as names at this level tell the time; equal bounds are moved apart. */
  function FromTime(q: Search, thisSpec: string): real {
    q.scan(thisSpec, q.show(thisSpec, q.fromTime))
  }

  function ToTime(q: Search, thisSpec: string): real {
    var t := q.scan(thisSpec, q.show(thisSpec, q.toTime));
    if t == FromTime(q, thisSpec) then t + 0.1 else t
  }

  predicate TimeOk(q: Search, thisSpec: string, current: string, path: string) {
    HasTimeField(TypesOf(current)) ==> FromTime(q, thisSpec) <= q.scan(thisSpec, path) < ToTime(q, thisSpec)
  }

  /** For a field of the level that the filter speaks of, the path has one of the filter's values. */
  predicate FilterOk(filter: Filter, thisSpec: string, current: string, path: string) {
    forall f <- filter :: f.0 in TypesOf(current) ==> (f.0, ValueOf(thisSpec, path, f.0)) in filter
  }

  /** A field's value in a name that reaches to it. */
  function ValueOf(thisSpec: string, path: string, t: FieldType): string {
    match Extract(Parse(thisSpec, 0).elements, path, t)
    case Ok(v) => v
    case Err(_) => ""
  }

  /** A path passes a level: it matches, and time and fields are as they are asked for. */
  predicate LevelOk(q: Search, thisSpec: string, current: string, path: string) {
    && Match(PatternOf(thisSpec), path, true)
    && TimeOk(q, thisSpec, current, path)
    && FilterOk(q.filter, thisSpec, current, path)
  }

  /** A path passes all levels from `pos` on; each looks at the path up to as many slashes. */
  predicate Passes(q: Search, path: string, pos: nat)
    requires pos <= |q.spec|
    decreases |q.spec| - pos
  {
    var end := LevelEnd(q.spec, pos);
    if end == |q.spec| then LevelOk(q, q.spec, Current(q.spec, pos), path)
    else
      && LevelOk(q, q.spec[..end], Current(q.spec, pos), Level(path, Slashes(q.spec[..end])))
      && Passes(q, path, end)
  }

  // ----- the filter

  /** In the order of the types, and nothing for the unknown one. */
  predicate InOrder(filter: Filter) {
    && (forall i, j | 0 <= i < j < |filter| :: filter[i].0 <= filter[j].0)
    && forall f <- filter :: f.0 != UNKNOWN
  }

  /** std::multimap::upper_bound. */
  function UpperBound(filter: Filter, t: FieldType): (k: nat)
    ensures k <= |filter|
    ensures forall i | 0 <= i < k :: filter[i].0 <= t
    ensures k < |filter| ==> filter[k].0 > t
  {
    if filter == [] || filter[0].0 > t then 0 else 1 + UpperBound(filter[1..], t)
  }

  /** Every earlier entry of the filter is satisfied, or is a wrong value of the type in hand. */
  ghost predicate Walked(filter: Filter, types: set<FieldType>, value: FieldType -> string, fi: nat)
    requires fi <= |filter|
  {
    forall i | 0 <= i < fi ::
      if fi < |filter| && filter[i].0 == filter[fi].0 then filter[i].1 != value(filter[i].0)
      else filter[i].0 in types ==> (filter[i].0, value(filter[i].0)) in filter
  }

  lemma Wrong(filter: Filter, types: set<FieldType>, value: FieldType -> string, fi: nat)
    requires fi < |filter| && InOrder(filter) && Walked(filter, types, value, fi)
    requires filter[fi].1 != value(filter[fi].0)
    ensures fi + 1 < |filter| && filter[fi + 1].0 == filter[fi].0 ==> Walked(filter, types, value, fi + 1)
    ensures (fi + 1 == |filter| || filter[fi + 1].0 != filter[fi].0) ==> (filter[fi].0, value(filter[fi].0)) !in filter
  {
    var t := filter[fi].0;
    assert forall i | fi < i < |filter| :: t <= filter[i].0;
    assert forall i | fi + 1 < i < |filter| :: filter[fi + 1].0 <= filter[i].0;
    if fi + 1 == |filter| || filter[fi + 1].0 != t {
      assert forall i | 0 <= i < |filter| && filter[i].0 == t :: filter[i].1 != value(t);
    }
  }

  lemma Right(filter: Filter, types: set<FieldType>, value: FieldType -> string, fi: nat)
    requires fi < |filter| && InOrder(filter) && Walked(filter, types, value, fi)
    requires filter[fi].0 in types ==> filter[fi].1 == value(filter[fi].0)
    ensures var k := UpperBound(filter, filter[fi].0);
            fi < k && Walked(filter, types, value, k)
  {
    var t := filter[fi].0;
    var k := UpperBound(filter, t);
    assert t in types ==> filter[fi] == (t, value(t));
    forall i | 0 <= i < k
      ensures filter[i].0 in types ==> (filter[i].0, value(filter[i].0)) in filter
    {
      if i >= fi {
        assert filter[i].0 >= t;
      }
    }
  }

  function Valued(thisSpec: string, path: string): FieldType -> string {
    (t: FieldType) => ValueOf(thisSpec, path, t)
  }

  /**
   Whether a path has the values the filter asks for, in the fields of the level in hand.  A field that
   the path does not reach is an exception, if it is asked for before another field is found wrong.
   */
  method MatchFilter(filter: Filter, current: Spec, scanner: Spec, path: string) returns (ok: bool, matched: bool)
    requires InOrder(filter) && scanner.fileSpecList == Parse(scanner.fileSpecString, 0).elements
    requires current.fileSpecSet == TypesOf(current.fileSpecString)
    ensures ok ==> matched == FilterOk(filter, scanner.fileSpecString, current.fileSpecString, path)
    ensures filter == [] || (forall t <- current.fileSpecSet :: Extract(scanner.fileSpecList, path, t).Ok?) ==> ok
  {
    hide Extract, TypesOf, Parse;
    ghost var types := current.fileSpecSet;
    ghost var value := Valued(scanner.fileSpecString, path);
    var fi := 0;
    var fieldVal := "";
    var lastFST: FieldType := UNKNOWN;
    while fi < |filter|
      invariant 0 <= fi <= |filter| && Walked(filter, types, value, fi)
      invariant lastFST != UNKNOWN ==> lastFST in types && fieldVal == value(lastFST)
    {
      var t := filter[fi].0;
      assert filter[fi] in filter;
      if t == lastFST || current.HasField(t) {
        if t != lastFST {
          var r := scanner.ExtractField(path, t);
          if r.Err? {
            return false, false;
          }
          fieldVal := r.value;
          lastFST := t;
        }
        if filter[fi].1 == fieldVal {
          Right(filter, types, value, fi);
          fi := UpperBound(filter, t);
        } else {
          Wrong(filter, types, value, fi);
          fi := fi + 1;
          if fi == |filter| || filter[fi].0 != lastFST {
            return true, false;
          }
        }
      } else {
        Right(filter, types, value, fi);
        fi := UpperBound(filter, t);
      }
    }
    ok, matched := true, true;
  }

  /**
   What a filter asks for: if it has values for a type that is tested, one of them is what the path has at the
   place of the first field of this type.
   */
  lemma FilterComparesText(filter: Filter, thisSpec: string, current: string, path: string)
    requires forall t <- TypesOf(current) :: t in TypesOf(thisSpec) && t != UNKNOWN && t != END
    requires forall e <- Parse(thisSpec, 0).elements :: e.offset + e.numCh <= |path|
    ensures FilterOk(filter, thisSpec, current, path)
       <==> forall f <- filter | f.0 in TypesOf(current) ::
              exists v: string, e: Element ::
                && (f.0, v) in filter && IsFirst(Parse(thisSpec, 0).elements, e, f.0)
                && v == path[e.offset..e.offset + e.numCh]
  {
    hide Parse, FieldTypes;
    var es := Parse(thisSpec, 0).elements;
    forall t | t in TypesOf(current)
      ensures First(es, t) < |es| && IsFirst(es, es[First(es, t)], t)
      ensures forall e | IsFirst(es, e, t) :: ValueOf(thisSpec, path, t) == path[e.offset..e.offset + e.numCh]
    {
      ValueIsText(thisSpec, path, t);
    }
    hide ValueOf;
  }

  /** The element is the first one of its type. */
  predicate IsFirst(es: seq<Element>, e: Element, t: FieldType) {
    exists i | 0 <= i < |es| :: es[i] == e && e.kind == t && forall j | 0 <= j < i :: es[j].kind != t
  }

  lemma ValueIsText(thisSpec: string, path: string, t: FieldType)
    requires t in TypesOf(thisSpec) && t != UNKNOWN && t != END
    requires forall e <- Parse(thisSpec, 0).elements :: e.offset + e.numCh <= |path|
    ensures var es := Parse(thisSpec, 0).elements;
            && First(es, t) < |es| && IsFirst(es, es[First(es, t)], t)
            && forall e | IsFirst(es, e, t) ::
                 e.offset + e.numCh <= |path| && ValueOf(thisSpec, path, t) == path[e.offset..e.offset + e.numCh]
  {
    hide Parse;
    var es := Parse(thisSpec, 0).elements;
    var e :| e in es && e.kind == t;
    var i := First(es, t);
    assert i < |es| && es[i] in es;
    forall e | IsFirst(es, e, t) ensures e == es[i] {
      var j :| 0 <= j < |es| && es[j] == e && e.kind == t && forall k | 0 <= k < j :: es[k].kind != t;
      assert j == i;
    }
    assert path[es[i].offset..][..es[i].numCh] == path[es[i].offset..es[i].offset + es[i].numCh];
  }

  // ----- the fields of a level

  predicate LevelStart(spec: string, pos: nat) {
    pos == 0 || (pos < |spec| && spec[pos] == '/')
  }

  /** Taking a specification apart where a level ends. */
  lemma LevelParts(spec: string, pos: nat, explicit: bool)
    requires pos <= |spec| && LevelStart(spec, pos) && Readable(spec, explicit)
    ensures var end := LevelEnd(spec, pos);
            && Readable(spec[..end], explicit)
            && Readable(spec[..end][pos..], explicit)
            && Readable(spec[..pos], explicit)
            && PatternOf(spec[..end]) == PatternOf(spec[..pos]) + PatternOf(spec[..end][pos..])
  {
    hide Readable, PatternOf;
    var end := LevelEnd(spec, pos);
    assert spec == spec[..end] + spec[end..];
    ReadableInParts(spec[..end], spec[end..], explicit);
    assert spec[..end] == spec[..pos] + spec[..end][pos..];
    if pos == 0 {
      NothingToRead(explicit);
      assert spec[..end][0..] == spec[..end] && spec[..0] == "";
    } else {
      assert spec[..end][pos..] != "" ==> spec[..end][pos..][0] == '/';
      ReadableInParts(spec[..pos], spec[..end][pos..], explicit);
    }
  }

  lemma NothingToRead(explicit: bool)
    ensures Readable("", explicit) && PatternOf("") == []
  {
  }

  /** What follows a slash. */
  lemma AfterSlash(a: string, b: string, explicit: bool)
    requires b != "" && b[0] == '/' && Readable(a + b, explicit)
    ensures Readable(b[1..], explicit) && TypesIn(b[1..]) == TypesIn(b) && TypesIn(a + b) == TypesIn(a) + TypesIn(b)
  {
    ReadableInParts(a, b, explicit);
    TypesInParts(a, b, explicit);
  }

  /**
   A level tests all of its fields, if a slash stands before the first of them.  Without one, which
   happens only at the start of a relative path, the first field is not tested.
   */
  lemma LevelTestsItsFields(spec: string, pos: nat, explicit: bool)
    requires pos <= |spec| && LevelStart(spec, pos) && Readable(spec, explicit)
    ensures var t, end, current := Find(spec, '%', pos), LevelEnd(spec, pos), Current(spec, pos);
            && Readable(current, explicit)
            && TypesOf(current) <= TypesOf(spec[..end])
            && (t == |spec| ==> TypesOf(current) == {})
            && ('/' in spec[..t] ==> TypesOf(current) == TypesIn(spec[pos..end]))
            && (t < |spec| && '/' !in spec[..t] ==>
                  pos == 0 && spec[t..end][0] == '%' && Letter(spec[t..end]).Some?
                  && TypesOf(current) == TypesIn(AfterField(spec[t..end])))
  {
    hide Readable, PatternOf, Letter, AfterField, TypesIn, TypesOf;
    var t, end := Find(spec, '%', pos), LevelEnd(spec, pos);
    match LastSlash(spec[..t])
    case Some(k) =>
      assert spec[..t][k] == '/' && '/' in spec[..t];
      LevelAfterSlash(spec, pos, explicit, k);
    case None =>
      assert '/' !in spec[..t];
      LevelWithoutSlash(spec, pos, explicit);
      assert t == |spec| ==> end == |spec|;
  }

  /** The level does not look at its first field. */
  predicate SkipsFirst(spec: string, pos: nat)
    requires pos <= |spec|
  {
    var t := Find(spec, '%', pos);
    t < |spec| && '/' !in spec[..t]
  }

  /** The types that a level does not test are that of a skipped field, if no later field of the level has it. */
  lemma AllFieldsAreTested(spec: string, pos: nat)
    requires pos <= |spec| && LevelStart(spec, pos) && Readable(spec, false)
    ensures var level := spec[Find(spec, '%', pos)..LevelEnd(spec, pos)];
            SkipsFirst(spec, pos) ==> level != "" && Letter(level).Some?
    ensures var t, end := Find(spec, '%', pos), LevelEnd(spec, pos);
            && (TypesOf(Current(spec, pos)) == TypesIn(spec[pos..end]) <==>
                  (SkipsFirst(spec, pos) ==> TypeOf(Letter(spec[t..end]).value) in TypesIn(AfterField(spec[t..end]))))
  {
    var t, end := Find(spec, '%', pos), LevelEnd(spec, pos);
    LevelTestsItsFields(spec, pos, false);
    hide *;
    LevelFields(spec, pos);
  }

  /** The fields of a level, those that are not tested included. */
  lemma LevelFields(spec: string, pos: nat)
    requires pos <= |spec| && LevelStart(spec, pos)
    ensures var t, end := Find(spec, '%', pos), LevelEnd(spec, pos);
            && t <= end
            && (t == |spec| ==> TypesIn(spec[pos..end]) == {})
            && (t < |spec| && Letter(spec[t..end]).Some? ==>
                  TypesIn(spec[pos..end]) == {TypeOf(Letter(spec[t..end]).value)} + TypesIn(AfterField(spec[t..end])))
  {
    hide TypesIn, TypeOf, Letter, AfterField;
    var t, end := Find(spec, '%', pos), LevelEnd(spec, pos);
    var text := spec[pos..t];
    assert forall i | 0 <= i < |text| :: text[i] == spec[pos + i];
    if t == |spec| {
      assert spec[pos..end] == text;
      NoFields(text);
    } else {
      assert spec[pos..end] == text + spec[t..end];
      TextBefore(text, spec[t..end], false);
      if Letter(spec[t..end]).Some? {
        FirstField(spec[t..end]);
      }
    }
  }

  lemma FirstField(fs: string)
    requires fs != "" && fs[0] == '%' && Letter(fs).Some?
    ensures TypesIn(fs) == {TypeOf(Letter(fs).value)} + TypesIn(AfterField(fs))
  {
  }

  /** A level tests the time exactly if it has a field of time after a skipped one. */
  lemma LevelTestsTime(spec: string, pos: nat)
    requires pos <= |spec| && LevelStart(spec, pos) && Readable(spec, false)
    ensures var level := spec[Find(spec, '%', pos)..LevelEnd(spec, pos)];
            SkipsFirst(spec, pos) ==> level != "" && Letter(level).Some?
    ensures var t, end := Find(spec, '%', pos), LevelEnd(spec, pos);
            var tested := if SkipsFirst(spec, pos) then AfterField(spec[t..end]) else spec[pos..end];
            HasTimeField(TypesOf(Current(spec, pos))) <==> exists t <- TypesIn(tested) :: 10 <= t
  {
    var t := Find(spec, '%', pos);
    LevelTestsItsFields(spec, pos, false);
    LevelFields(spec, pos);
  }

  lemma TypesOfIn(spec: string)
    ensures TypesOf(spec) == TypesIn(spec)
  {
    TypesAreIn(spec, 0);
  }

  lemma LevelAfterSlash(spec: string, pos: nat, explicit: bool, k: nat)
    requires pos <= |spec| && LevelStart(spec, pos) && Readable(spec, explicit)
    requires LastSlash(spec[..Find(spec, '%', pos)]) == Some(k)
    ensures var t, end, current := Find(spec, '%', pos), LevelEnd(spec, pos), Current(spec, pos);
            && Readable(current, explicit)
            && TypesOf(current) <= TypesOf(spec[..end])
            && TypesOf(current) == TypesIn(spec[pos..end])
            && (t == |spec| ==> TypesOf(current) == {})
  {
    hide *;
    var t, end, current := Find(spec, '%', pos), LevelEnd(spec, pos), Current(spec, pos);
    LevelParts(spec, pos, explicit);
    TypesOfIn(current);
    TypesOfIn(spec[..end]);
    LastAfterStart(spec, pos, t, k);
    CurrentIs(spec, pos, k);
    Slices(spec, pos, k, end);
    TypesAfterSlash(spec[..k], spec[k..end], spec[pos..k], explicit);
  }

  lemma CurrentIs(spec: string, pos: nat, k: nat)
    requires pos <= |spec| && LastSlash(spec[..Find(spec, '%', pos)]) == Some(k)
    ensures var t, end := Find(spec, '%', pos), LevelEnd(spec, pos);
            t <= end && Current(spec, pos) == spec[k + 1..end] && (t == |spec| ==> end == |spec|)
  {
  }

  lemma Slices(spec: string, pos: nat, k: nat, end: nat)
    requires pos <= k < end <= |spec|
    ensures spec[k..end][1..] == spec[k + 1..end] && spec[..end] == spec[..k] + spec[k..end]
    ensures spec[pos..end] == spec[pos..k] + spec[k..end] && spec[k..end][0] == spec[k]
    ensures (forall i | pos <= i < end :: spec[i] != '%') ==> '%' !in spec[k..end]
  {
  }

  lemma TypesAfterSlash(a: string, b: string, c: string, explicit: bool)
    requires b != "" && b[0] == '/' && '%' !in c && Readable(a + b, explicit)
    ensures Readable(b[1..], explicit)
    ensures TypesIn(b[1..]) <= TypesIn(a + b) && TypesIn(b[1..]) == TypesIn(c + b)
    ensures '%' !in b ==> TypesIn(b[1..]) == {}
  {
    hide *;
    AfterSlash(a, b, explicit);
    TextBefore(c, b, explicit);
    if '%' !in b {
      NoFields(b);
    }
  }

  lemma LastAfterStart(spec: string, pos: nat, t: nat, k: nat)
    requires pos <= t <= |spec| && (forall i | pos <= i < t :: spec[i] != '%') && (t < |spec| ==> spec[t] == '%')
    requires LevelStart(spec, pos) && LastSlash(spec[..t]) == Some(k)
    ensures pos <= k < t && '%' !in spec[pos..k]
  {
    var s := spec[..t];
    if 0 < pos < t {
      assert s[pos] == '/';
      assert forall i | k < i < t :: s[k + 1..][i - k - 1] == s[i];
    }
  }

  lemma LevelWithoutSlash(spec: string, pos: nat, explicit: bool)
    requires pos <= |spec| && LevelStart(spec, pos) && Readable(spec, explicit)
    requires '/' !in spec[..Find(spec, '%', pos)] && LastSlash(spec[..Find(spec, '%', pos)]) == None
    ensures var t, end, current := Find(spec, '%', pos), LevelEnd(spec, pos), Current(spec, pos);
            && Readable(current, explicit)
            && TypesOf(current) <= TypesOf(spec[..end])
            && (t == |spec| ==> TypesOf(current) == {})
            && (t < |spec| ==>
                  pos == 0 && spec[t..end][0] == '%' && Letter(spec[t..end]).Some?
                  && TypesOf(current) == TypesIn(AfterField(spec[t..end])))
  {
    hide *;
    var t, end, current := Find(spec, '%', pos), LevelEnd(spec, pos), Current(spec, pos);
    LevelParts(spec, pos, explicit);
    TypesOfIn(current);
    TypesOfIn(spec[..end]);
    StartsAtZero(spec, pos, t);
    CurrentWithoutSlash(spec, explicit);
    if t == |spec| {
      NoFields(spec);
    } else {
      TextBefore(spec[..t], spec[t..end], explicit);
      FieldAsText(spec[t..end], explicit);
    }
  }

  lemma CurrentWithoutSlash(spec: string, explicit: bool)
    requires LastSlash(spec[..Find(spec, '%', 0)]) == None
    ensures var t, end := Find(spec, '%', 0), LevelEnd(spec, 0);
            && '%' !in spec[..t]
            && (t == |spec| ==> end == |spec| && Current(spec, 0) == spec == spec[..end])
            && (t < |spec| ==>
                  t < end && Current(spec, 0) == spec[t..end][1..] && spec[..end] == spec[..t] + spec[t..end])
  {
    SlicesWithoutSlash(spec, Find(spec, '%', 0), LevelEnd(spec, 0));
  }

  lemma SlicesWithoutSlash(spec: string, t: nat, end: nat)
    requires t <= end <= |spec|
    ensures spec[..|spec|] == spec && spec[..end] == spec[..t] + spec[t..end]
    ensures t < end ==> spec[t..end][1..] == spec[t + 1..end]
    ensures (forall i | 0 <= i < t :: spec[i] != '%') ==> '%' !in spec[..t]
  {
  }

  lemma StartsAtZero(spec: string, pos: nat, t: nat)
    requires pos <= t <= |spec| && LevelStart(spec, pos) && '/' !in spec[..t] && (t < |spec| ==> spec[t] == '%')
    ensures pos == 0
  {
    assert pos < t ==> spec[..t][pos] == spec[pos];
  }

  lemma {:induction false} NoFields(s: string)
    requires '%' !in s
    ensures TypesIn(s) == {}
  {
    if s != "" {
      NoFields(s[1..]);
    }
  }

  /** So a relative path is found whatever its year is: here no type is tested. */
  lemma RelativeYearIsNotTested()
    ensures Readable("%4Y", true) && Current("%4Y", 0) == "4Y" && TypesOf(Current("%4Y", 0)) == {}
  {
    var s := "%4Y";
    assert Find(s, '%', 0) == 0 && s[..0] == "" && LevelEnd(s, 0) == 3;
    TypesAreIn("4Y", 0);
    NoFields("4Y");
    hide TypesIn;
    FieldOfOneDigit('4', 'Y', "", 0);
    assert OneDigitField('4', 'Y') + "" == s;
    hide Letter, AfterField, FieldAt, AsInt;
    assert Readable("", true);
  }

  /** With a day of the year after it the time is tested, and the year with it, but still no filter on the year. */
  lemma RelativeYearWithDay()
    ensures Readable("%4Y%3j", true) && Current("%4Y%3j", 0) == "4Y%3j"
    ensures TypesOf(Current("%4Y%3j", 0)) == {TypeOf('j')} && HasTimeField({TypeOf('j')})
    ensures FIRST_TIME !in TypesOf(Current("%4Y%3j", 0))
  {
    hide *;
    DayLevel();
    DayField();
    TypesOfIn("4Y%3j");
    TextBefore("4Y", "%3j", true);
    assert "4Y" + "%3j" == "4Y%3j";
  }

  lemma DayLevel()
    ensures Current("%4Y%3j", 0) == "4Y%3j"
  {
    var s := "%4Y%3j";
    assert Find(s, '%', 0) == 0 && s[..0] == "" && LevelEnd(s, 0) == 6;
  }

  lemma DayField()
    ensures TypesIn("%3j") == {TypeOf('j')} && Readable("%4Y%3j", true)
    ensures FIRST_TIME < TypeOf('j') && HasTimeField({TypeOf('j')})
  {
    FieldOfOneDigit('4', 'Y', "%3j", 0);
    FieldOfOneDigit('3', 'j', "", 0);
    hide Letter, AfterField, FieldAt, AsInt, HasTimeField;
    assert OneDigitField('4', 'Y') + "%3j" == "%4Y%3j" && OneDigitField('3', 'j') + "" == "%3j";
    assert Readable("", true) && TypesIn("") == {};
    assert Readable("%3j", true);
    DayIsTime();
  }

  lemma DayIsTime()
    ensures FIRST_TIME < TypeOf('j') && HasTimeField({TypeOf('j')})
  {
    assert TypeOf('j') in {TypeOf('j')};
  }

  // ----- the files

  /** No character that a pattern or a specification would read as anything but itself. */
  predicate Plain(path: string) {
    forall c <- path :: !Special(c) && c != '%'
  }

  /** Different paths with plain names, and the directories that they lie in. */
  predicate FileSystem(files: seq<string>) {
    && (forall i, j | 0 <= i < j < |files| :: files[i] != files[j])
    && (forall p <- files :: Plain(p))
    && forall p <- files, i | 0 < i < |p| && p[i] == '/' :: p[..i] in files
  }

  /** The files that match, as glob(3) finds them. */
  function GlobHits(files: seq<string>, pattern: string): (hits: seq<string>)
    ensures |hits| <= |files|
    ensures forall p :: p in hits <==> p in files && Match(Read(pattern), p, true)
  {
    if files == [] then []
    else (if Match(Read(pattern), files[0], true) then [files[0]] else []) + GlobHits(files[1..], pattern)
  }

  predicate Distinct(s: seq<string>) {
    forall i, j | 0 <= i < j < |s| :: s[i] != s[j]
  }

  lemma {:induction false} HitsAreDistinct(files: seq<string>, pattern: string)
    requires Distinct(files)
    ensures Distinct(GlobHits(files, pattern))
  {
    if files != [] {
      HitsAreDistinct(files[1..], pattern);
      assert files[0] !in files[1..];
    }
  }

  /** What is known when the search enters a level: the part of a path that it has matched so far. */
  ghost predicate Entered(q: Search, files: seq<string>, matched: string, pos: nat) {
    if pos == 0 then matched == ""
    else pos < |q.spec| && q.spec[pos] == '/' && matched in files && Match(PatternOf(q.spec[..pos]), matched, true)
  }

  /** Paths that agree with what has been matched. */
  predicate Below(q: Search, path: string, matched: string, pos: nat)
    requires pos <= |q.spec|
  {
    pos == 0 || Level(path, Slashes(q.spec[..pos])) == matched
  }

  /** What the level from `pos` sees of a path. */
  function Top(q: Search, path: string, pos: nat): string
    requires pos <= |q.spec|
  {
    var end := LevelEnd(q.spec, pos);
    if end == |q.spec| then path else Level(path, Slashes(q.spec[..end]))
  }

  predicate LevelOkAt(q: Search, path: string, pos: nat)
    requires pos <= |q.spec|
  {
    LevelOk(q, q.spec[..LevelEnd(q.spec, pos)], Current(q.spec, pos), path)
  }

  lemma PassesStep(q: Search, path: string, pos: nat)
    requires pos <= |q.spec|
    ensures var end := LevelEnd(q.spec, pos);
            Passes(q, path, pos) <==> LevelOkAt(q, Top(q, path, pos), pos) && (end < |q.spec| ==> Passes(q, path, end))
  {
    hide LevelOk, Current;
    assert q.spec[..|q.spec|] == q.spec;
  }

  // ----- all levels at once

  /** The search that starts at `start` has a level at `pos`. */
  predicate IsLevel(q: Search, start: nat, pos: nat)
    requires start <= |q.spec|
    decreases |q.spec| - start
  {
    var end := LevelEnd(q.spec, start);
    pos == start || (end < |q.spec| && IsLevel(q, end, pos))
  }

  lemma {:induction false} LevelsAreInside(q: Search, start: nat, pos: nat)
    requires start <= |q.spec| && IsLevel(q, start, pos)
    ensures pos <= |q.spec|
    decreases |q.spec| - start
  {
    if pos != start {
      LevelsAreInside(q, LevelEnd(q.spec, start), pos);
    }
  }

  /** A path passes if and only if it passes each level for itself. */
  lemma {:induction false} PassesEveryLevel(q: Search, path: string, start: nat)
    requires start <= |q.spec|
    ensures Passes(q, path, start)
       <==> forall pos: nat | pos <= |q.spec| && IsLevel(q, start, pos) :: LevelOkAt(q, Top(q, path, pos), pos)
    decreases |q.spec| - start
  {
    hide LevelOkAt, Top, Passes, LevelEnd;
    PassesStep(q, path, start);
    var end := LevelEnd(q.spec, start);
    assert IsLevel(q, start, start);
    if end < |q.spec| {
      PassesEveryLevel(q, path, end);
      assert forall pos: nat :: IsLevel(q, start, pos) <==> pos == start || IsLevel(q, end, pos);
    } else {
      assert forall pos: nat :: IsLevel(q, start, pos) <==> pos == start;
    }
  }

  // ----- the end of the time span

  function SpecOf(q: Search, pos: nat): string
    requires pos <= |q.spec|
  {
    q.spec[..LevelEnd(q.spec, pos)]
  }

  /** The level has a field of time. */
  predicate TellsTime(q: Search, pos: nat)
    requires pos <= |q.spec|
  {
    HasTimeField(TypesOf(Current(q.spec, pos)))
  }

  /** What a level makes of a time. */
  function Period(q: Search, pos: nat, t: real): real
    requires pos <= |q.spec|
  {
    q.scan(SpecOf(q, pos), q.show(SpecOf(q, pos), t))
  }

  function FirstPeriod(q: Search, pos: nat): real
    requires pos <= |q.spec|
  {
    Period(q, pos, q.fromTime)
  }

  function LastPeriod(q: Search, pos: nat): real
    requires pos <= |q.spec|
  {
    Period(q, pos, q.toTime)
  }

  /** What the level sees of the path lies in the period in which the search ends. */
  predicate EndsThere(q: Search, path: string, pos: nat)
    requires pos <= |q.spec|
  {
    q.scan(SpecOf(q, pos), Top(q, path, pos)) == LastPeriod(q, pos)
  }

  /** Some level sees the path in the last period, and the search starts in another one. */
  ghost predicate TooLate(q: Search, path: string) {
    exists pos: nat | pos <= |q.spec| && IsLevel(q, 0, pos) ::
      EndsThere(q, path, pos) && !OnePeriod(q, pos)
  }

  /** If the level has a field of time, it sees both bounds in one period. */
  predicate OnePeriod(q: Search, pos: nat)
    requires pos <= |q.spec|
  {
    TellsTime(q, pos) ==> FirstPeriod(q, pos) == LastPeriod(q, pos)
  }

  /** The other tests of a level. */
  predicate OthersOk(q: Search, path: string, pos: nat)
    requires pos <= |q.spec|
  {
    var top := Top(q, path, pos);
    Match(PatternOf(SpecOf(q, pos)), top, true) && FilterOk(q.filter, SpecOf(q, pos), Current(q.spec, pos), top)
  }

  /**
   Each level's range is half-open in the level's own units: a path of the last period passes the level
   only if the search starts in that period.
   */
  lemma LastPeriodAtLevel(q: Search, path: string, pos: nat)
    requires pos <= |q.spec| && (TellsTime(q, pos) ==> EndsThere(q, path, pos))
    ensures LevelOkAt(q, Top(q, path, pos), pos)
       <==> OthersOk(q, path, pos) && OnePeriod(q, pos)
  {
    hide Match, PatternOf, FilterOk, Current, Top, LevelEnd, HasTimeField, TypesOf;
  }

  /** So no path is found that some level sees in the last period, if the search starts in another one. */
  lemma LastPeriodIsPruned(q: Search, path: string)
    requires TooLate(q, path)
    ensures !Passes(q, path, 0)
  {
    hide LevelOkAt, Top, EndsThere, OnePeriod, IsLevel;
    var pos: nat :| pos <= |q.spec| && IsLevel(q, 0, pos) && EndsThere(q, path, pos) && !OnePeriod(q, pos);
    PassesEveryLevel(q, path, 0);
    LastPeriodAtLevel(q, path, pos);
  }

  /** What the level sees of the path lies between the bounds of the search, the last period included. */
  predicate InSpan(q: Search, path: string, pos: nat)
    requires pos <= |q.spec|
  {
    TellsTime(q, pos) ==> FirstPeriod(q, pos) <= q.scan(SpecOf(q, pos), Top(q, path, pos)) <= LastPeriod(q, pos)
  }

  lemma TimeAtLevel(q: Search, path: string, pos: nat)
    requires pos <= |q.spec| && OthersOk(q, path, pos) && InSpan(q, path, pos)
    ensures LevelOkAt(q, Top(q, path, pos), pos) <==> !EndsThere(q, path, pos) || OnePeriod(q, pos)
  {
    hide Match, PatternOf, FilterOk, Current, Top, LevelEnd, HasTimeField, TypesOf;
  }

  /**
   And a path that passes all other tests, and that every level sees between the bounds, is found exactly
   if no level sees it too late.
   */
  lemma LastPeriodIsFound(q: Search, path: string)
    requires forall pos: nat | pos <= |q.spec| && IsLevel(q, 0, pos) :: OthersOk(q, path, pos) && InSpan(q, path, pos)
    ensures Passes(q, path, 0) <==> !TooLate(q, path)
  {
    PassesEveryLevel(q, path, 0);
    hide Passes, OthersOk, InSpan, IsLevel, EndsThere, OnePeriod, LevelOkAt, Top;
    forall pos: nat | pos <= |q.spec| && IsLevel(q, 0, pos)
      ensures LevelOkAt(q, Top(q, path, pos), pos) <==> !EndsThere(q, path, pos) || OnePeriod(q, pos)
    {
      TimeAtLevel(q, path, pos);
    }
  }

  lemma TimeTest(q: Search, path: string, pos: nat)
    requires pos <= |q.spec|
    ensures LevelOkAt(q, Top(q, path, pos), pos)
       <==> && OthersOk(q, path, pos)
            && (TellsTime(q, pos) ==>
                  var seen, first, last := q.scan(SpecOf(q, pos), Top(q, path, pos)), FirstPeriod(q, pos),
                                           LastPeriod(q, pos);
                  first <= seen && (seen < last || (first == last && seen < last + 0.1)))
  {
    hide Match, PatternOf, FilterOk, Current, Top, LevelEnd, HasTimeField, TypesOf;
  }

  /**
   What a path has to be in order to be found: it passes all other tests, and no level with time sees it
   before the period of the start, nor in or after the period of the end, unless both are one period.
   */
  lemma PassesExactly(q: Search, path: string)
    ensures Passes(q, path, 0)
       <==> forall pos: nat | pos <= |q.spec| && IsLevel(q, 0, pos) ::
              && OthersOk(q, path, pos)
              && (TellsTime(q, pos) ==>
                    var seen, first, last := q.scan(SpecOf(q, pos), Top(q, path, pos)), FirstPeriod(q, pos),
                                             LastPeriod(q, pos);
                    first <= seen && (seen < last || (first == last && seen < last + 0.1)))
  {
    PassesEveryLevel(q, path, 0);
    hide *;
    forall pos: nat | pos <= |q.spec| && IsLevel(q, 0, pos)
      ensures LevelOkAt(q, Top(q, path, pos), pos)
         <==> && OthersOk(q, path, pos)
              && (TellsTime(q, pos) ==>
                    var seen, first, last := q.scan(SpecOf(q, pos), Top(q, path, pos)), FirstPeriod(q, pos),
                                             LastPeriod(q, pos);
                    first <= seen && (seen < last || (first == last && seen < last + 0.1)))
    {
      TimeTest(q, path, pos);
    }
  }

  // ----- patterns of levels

  lemma {:induction false} PatternAfterText(text: string, fs: string)
    requires '%' !in text
    ensures PatternOf(text + fs) == Literal(text) + PatternOf(fs)
  {
    if text == "" {
      assert text + fs == fs;
    } else {
      PatternAfterText(text[1..], fs);
      assert (text + fs)[1..] == text[1..] + fs && (text + fs)[0] == text[0];
      Reassociate([Lit(text[0])], Literal(text[1..]), PatternOf(fs));
    }
  }

  lemma {:induction false} SlashesAppend(p: Pattern, q: Pattern)
    ensures PatternSlashes(p + q) == PatternSlashes(p) + PatternSlashes(q)
  {
    if p == [] {
      assert p + q == q;
    } else {
      SlashesAppend(p[1..], q);
      assert (p + q)[1..] == p[1..] + q && (p + q)[0] == p[0];
    }
  }

  lemma {:induction false} SlashesAfterText(text: string, s: string)
    requires '/' !in text
    ensures Slashes(text + s) == Slashes(s)
  {
    if text == "" {
      assert text + s == s;
    } else {
      SlashesAfterText(text[1..], s);
      assert (text + s)[1..] == text[1..] + s && (text + s)[0] == text[0];
    }
  }

  /** Slashes of the specification are those of the pattern. */
  lemma {:induction false} PatternSlashesAre(fs: string)
    requires Readable(fs, false)
    ensures PatternSlashes(PatternOf(fs)) == Slashes(fs)
    decreases |fs|
  {
    hide Letter, AsInt, FieldPattern, PatternSlashes, Slashes, AfterField, FieldAt;
    if fs == "" {
      NoSlashes();
    } else if fs[0] != '%' {
      PatternSlashesAre(fs[1..]);
      SlashesOne(Lit(fs[0]), PatternOf(fs[1..]));
      SlashesOneMore(fs);
    } else {
      PatternOfField(fs);
      PatternSlashesAre(AfterField(fs));
      PlainField(AsInt(fs[1..]), Letter(fs).value);
      SlashesAppend(FieldPattern(AsInt(fs[1..]), Letter(fs).value), PatternOf(AfterField(fs)));
      FieldHasNoSlash(fs);
    }
  }

  lemma NoSlashes()
    ensures PatternSlashes([]) == 0 == Slashes("") && PatternOf("") == []
  {
  }

  lemma SlashesOneMore(s: string)
    requires s != ""
    ensures Slashes(s) == Slashes(s[1..]) + if s[0] == '/' then 1 else 0
  {
  }

  lemma FieldHasNoSlash(fs: string)
    requires fs != "" && fs[0] == '%' && Letter(fs).Some?
    ensures Slashes(fs) == Slashes(AfterField(fs))
  {
    LetterIs(fs);
    var d := DigitCount(fs[1..]) + 1;
    LettersAreNoDigits(fs[d]);
    assert forall i | 1 <= i <= d :: fs[1..][i - 1] == fs[i] && fs[i] != '/';
    assert '/' !in fs[..d + 1] && fs == fs[..d + 1] + fs[d + 1..];
    SlashesAfterText(fs[..d + 1], fs[d + 1..]);
  }

  // ----- one level of the search

  lemma {:induction false} SlashesOfPrefix(s: string, i: nat, j: nat)
    requires i <= j <= |s|
    ensures Slashes(s[..i]) <= Slashes(s[..j])
  {
    if i > 0 {
      SlashesOfPrefix(s[1..], i - 1, j - 1);
      assert s[..i][1..] == s[1..][..i - 1] && s[..j][1..] == s[1..][..j - 1];
      assert s[..i][0] == s[0] == s[..j][0];
    } else {
      assert s[..0] == "";
    }
  }

  lemma PatternNotEmpty(fs: string)
    requires fs != "" && Readable(fs, false)
    ensures PatternOf(fs) != [] && !Match(PatternOf(fs), "", true)
  {
  }

  predicate Searchable(q: Search, files: seq<string>) {
    && FileSystem(files)
    && (forall c <- q.spec :: !Special(c))
    && Readable(q.spec, false)
    && InOrder(q.filter)
  }

  lemma SearchableIsReadable(q: Search, files: seq<string>)
    requires Searchable(q, files)
    ensures Readable(q.spec, false)
  {
  }

  /** No field can be out of reach: there is no filter, or every field has a width. */
  predicate InReach(q: Search) {
    q.filter == [] || Readable(q.spec, true)
  }

  /** The pattern of a level, with what has been matched in place of what the matched part was found by. */
  function LevelPattern(q: Search, matched: string, pos: nat): string
    requires pos <= |q.spec|
  {
    Show(PatternOf(matched + q.spec[..LevelEnd(q.spec, pos)][pos..]))
  }

  lemma LevelPatternReads(q: Search, files: seq<string>, matched: string, pos: nat)
    requires Searchable(q, files) && pos <= |q.spec| && Entered(q, files, matched, pos)
    ensures Read(LevelPattern(q, matched, pos)) == Literal(matched) + PatternOf(q.spec[..LevelEnd(q.spec, pos)][pos..])
  {
    hide Readable, PatternOf, Read, Show, InOrder, Match, LevelEnd;
    var rest := q.spec[..LevelEnd(q.spec, pos)][pos..];
    assert Plain(matched);
    assert forall c <- rest :: c in q.spec;
    PlainPattern(matched + rest);
    ReadShow(PatternOf(matched + rest));
    PatternAfterText(matched, rest);
  }

  /** glob finds what is below the matched part and matches the whole specification up to this level. */
  lemma HitsOfLevel(q: Search, files: seq<string>, matched: string, pos: nat, p: string)
    requires Searchable(q, files) && pos <= |q.spec| && Entered(q, files, matched, pos)
    ensures Match(Read(LevelPattern(q, matched, pos)), p, true)
       <==> Below(q, p, matched, pos) && Match(PatternOf(q.spec[..LevelEnd(q.spec, pos)]), p, true)
  {
    hide *;
    var rest := q.spec[..LevelEnd(q.spec, pos)][pos..];
    SearchableIsReadable(q, files);
    LevelPatternReads(q, files, matched, pos);
    EnteredAt(q, files, matched, pos);
    LevelParts(q.spec, pos, false);
    if pos == 0 {
      assert Literal(matched) + PatternOf(rest) == PatternOf(rest);
      assert rest == q.spec[..LevelEnd(q.spec, pos)];
    } else {
      var g1, g2 := PatternOf(q.spec[..pos]), PatternOf(rest);
      StartsWithSlash(rest);
      MatchInParts(Literal(matched), g2, p, true);
      MatchInParts(g1, g2, p, true);
      MatchSlashes(g1, matched, true);
      PatternSlashesAre(q.spec[..pos]);
      SameCut(g1, g2, matched, p, Slashes(q.spec[..pos]));
    }
  }

  /** What Entered says, with the rest of the level. */
  lemma EnteredAt(q: Search, files: seq<string>, matched: string, pos: nat)
    requires Searchable(q, files) && pos <= |q.spec| && Entered(q, files, matched, pos)
    ensures LevelStart(q.spec, pos) && (pos == 0 ==> Literal(matched) == [] && forall p :: Below(q, p, matched, pos))
    ensures pos > 0 ==> matched in files && Match(PatternOf(q.spec[..pos]), matched, true)
    ensures pos > 0 ==> forall p :: Below(q, p, matched, pos) <==> Level(p, Slashes(q.spec[..pos])) == matched
    ensures pos > 0 ==> var rest := q.spec[..LevelEnd(q.spec, pos)][pos..];
                        rest != "" && rest[0] == '/'
  {
    hide Match, PatternOf, Level;
  }

  lemma StartsWithSlash(fs: string)
    requires fs != "" && fs[0] == '/'
    ensures PatternOf(fs) != [] && PatternOf(fs)[0] == Lit('/')
  {
  }

  lemma SameCut(g1: Pattern, g2: Pattern, matched: string, p: string, n: nat)
    requires Match(g1, matched, true) && PatternSlashes(g1) == Slashes(matched) == n
    ensures InParts(Literal(matched), g2, p, true) <==> Level(p, n) == matched && InParts(g1, g2, p, true)
  {
    hide Match;
    MatchLiteral(matched, Level(p, n), true);
  }

  /** The path is the hit itself or, at later levels, one that is found below it. */
  predicate Found(q: Search, pos: nat, p: string, h: string)
    requires pos <= |q.spec|
  {
    var end := LevelEnd(q.spec, pos);
    LevelOkAt(q, h, pos) && if end == |q.spec| then p == h else Below(q, p, h, end) && Passes(q, p, end)
  }

  /** A path below a hit passes from here on just if the hit passes this level and the path the next ones. */
  lemma StepDown(q: Search, matched: string, pos: nat, p: string, h: string)
    requires pos <= |q.spec| && Below(q, h, matched, pos)
    ensures Below(q, p, matched, pos) && Passes(q, p, pos) && Top(q, p, pos) == h <==> Found(q, pos, p, h)
  {
    hide LevelOkAt, Passes, Level, Slashes;
    PassesStep(q, p, pos);
    var end := LevelEnd(q.spec, pos);
    var n, m := Slashes(q.spec[..pos]), Slashes(q.spec[..end]);
    SlashesOfPrefix(q.spec, pos, end);
    CutTwice(p, n, m);
  }

  /** What a level sees of a path that passes is one of the level's hits. */
  lemma TopIsHit(q: Search, files: seq<string>, matched: string, pos: nat, p: string)
    requires Searchable(q, files) && pos <= |q.spec| && p in files && Below(q, p, matched, pos) && Passes(q, p, pos)
    ensures var top := Top(q, p, pos);
            && top in files && Below(q, top, matched, pos)
            && Match(PatternOf(q.spec[..LevelEnd(q.spec, pos)]), top, true)
  {
    hide Passes, Match, PatternOf, TimeOk, FilterOk, Readable, Current, Slashes, Cut;
    PassesStep(q, p, pos);
    var end := LevelEnd(q.spec, pos);
    if end < |q.spec| {
      var n, m := Slashes(q.spec[..pos]), Slashes(q.spec[..end]);
      SlashesOfPrefix(q.spec, pos, end);
      CutTwice(p, n, m);
      LevelNotEmpty(q, files, pos);
      assert q.spec[..end] != "";
      assert p[..Cut(p, m)] != "";
      if Cut(p, m) == |p| {
        assert p[..|p|] == p;
      }
    }
  }

  lemma LevelNotEmpty(q: Search, files: seq<string>, pos: nat)
    requires Searchable(q, files) && pos <= |q.spec| && LevelEnd(q.spec, pos) < |q.spec|
    ensures !Match(PatternOf(q.spec[..LevelEnd(q.spec, pos)]), "", true)
  {
    hide PatternOf, Match, Readable;
    var end := LevelEnd(q.spec, pos);
    SearchableIsReadable(q, files);
    assert q.spec == q.spec[..end] + q.spec[end..];
    ReadableInParts(q.spec[..end], q.spec[end..], false);
    PatternNotEmpty(q.spec[..end]);
  }

  /** With widths for all fields, a name that matches has all of them. */
  lemma FieldsInRange(thisSpec: string, path: string)
    requires Readable(thisSpec, true) && Match(PatternOf(thisSpec), path, true)
    ensures forall t <- TypesOf(thisSpec) :: Extract(Parse(thisSpec, 0).elements, path, t).Ok?
  {
    hide *;
    PatternFitsElements(thisSpec, path);
    ParseTiles(thisSpec, 0);
    forall t | t in TypesOf(thisSpec) ensures Extract(Parse(thisSpec, 0).elements, path, t).Ok? {
      FieldInRange(thisSpec, path, t);
    }
  }

  lemma FieldInRange(thisSpec: string, path: string, t: FieldType)
    requires var es := Parse(thisSpec, 0).elements;
             FitsAll(es, path, true) && Tiled(es, 0) && forall i | 0 <= i < |es| :: es[i].offset == TotalWidth(es[..i])
    requires t in TypesOf(thisSpec)
    ensures Extract(Parse(thisSpec, 0).elements, path, t).Ok?
  {
    hide Parse, Fits, TotalWidth;
    var es := Parse(thisSpec, 0).elements;
    var e :| e in es && e.kind == t;
    assert First(es, t) < |es|;
    assert FitsAt(es, path, true, First(es, t));
  }

  // ----- the search

  /** Whether a hit passes the tests of time and fields; a field out of reach is an exception. */
  method TestHit(q: Search, hit: string, thisSpec: string, current: string, scanner: Spec, currentScanner: Spec)
    returns (ok: bool, passed: bool)
    requires InOrder(q.filter)
    requires scanner.fileSpecString == thisSpec && scanner.fileSpecList == Parse(thisSpec, 0).elements
    requires currentScanner.fileSpecString == current && currentScanner.fileSpecSet == TypesOf(current)
    ensures ok ==> passed == (TimeOk(q, thisSpec, current, hit) && FilterOk(q.filter, thisSpec, current, hit))
    ensures q.filter == [] || (forall t <- TypesOf(current) :: Extract(Parse(thisSpec, 0).elements, hit, t).Ok?) ==> ok
  {
    hide FilterOk, TypesOf;
    var timeMatched := true;
    if HasTimeField(currentScanner.fileSpecSet) {
      var fileTime := q.scan(thisSpec, hit);
      timeMatched := FromTime(q, thisSpec) <= fileTime && fileTime < ToTime(q, thisSpec);
    }
    ok, passed := true, false;
    if timeMatched {
      ok, passed := MatchFilter(q.filter, currentScanner, scanner, hit);
    }
  }

  /** What has been found below the first i hits. */
  ghost predicate FoundBelow(q: Search, files: seq<string>, matched: string, pos: nat, hits: seq<string>, i: nat,
                             rv: seq<string>)
    requires pos <= |q.spec| && i <= |hits|
  {
    && Distinct(rv)
    && forall p ::
         p in rv <==>
           p in files && Below(q, p, matched, pos) && Passes(q, p, pos) && Top(q, p, pos) in hits[..i]
  }

  lemma FoundMore(q: Search, files: seq<string>, matched: string, pos: nat, hits: seq<string>, i: nat,
                  rv: seq<string>, more: seq<string>)
    requires pos <= |q.spec| && i < |hits| && Distinct(hits) && Below(q, hits[i], matched, pos)
    requires FoundBelow(q, files, matched, pos, hits, i, rv)
    requires Distinct(more) && forall p :: p in more <==> p in files && Found(q, pos, p, hits[i])
    ensures FoundBelow(q, files, matched, pos, hits, i + 1, rv + more)
  {
    hide Below, Passes, Top, Found;
    var h := hits[i];
    assert hits[..i + 1] == hits[..i] + [h] && h !in hits[..i];
    forall p
      ensures p in rv + more <==>
                p in files && Below(q, p, matched, pos) && Passes(q, p, pos) && Top(q, p, pos) in hits[..i + 1]
    {
      StepDown(q, matched, pos, p, h);
    }
    forall p | p in rv && p in more ensures false {
      StepDown(q, matched, pos, p, h);
    }
    DistinctAppend(rv, more);
  }

  lemma DistinctAppend(s: seq<string>, t: seq<string>)
    requires Distinct(s) && Distinct(t) && forall x <- s :: x !in t
    ensures Distinct(s + t)
  {
    forall i, j | 0 <= i < j < |s| + |t| ensures (s + t)[i] != (s + t)[j] {
      if i < |s| <= j {
        assert s[i] in s && t[j - |s|] in t;
      }
    }
  }

  /** What holds when a level is searched. */
  lemma LevelOfSearch(q: Search, files: seq<string>, matched: string, pos: nat)
    requires Searchable(q, files) && pos <= |q.spec| && Entered(q, files, matched, pos)
    ensures var end, current := LevelEnd(q.spec, pos), Current(q.spec, pos);
            var thisSpec := q.spec[..end];
            var hits := GlobHits(files, Show(PatternOf(matched + thisSpec[pos..])));
            && Complete(matched + thisSpec[pos..])
            && UnsignedWidths(current) && UnsignedWidths(thisSpec) && Parse(current, 0).ok && Parse(thisSpec, 0).ok
            && TypesOf(current) == {} + FieldTypes(Parse(current, 0).elements)
            && Distinct(hits)
            && forall h :: h in hits <==> h in files && Below(q, h, matched, pos) && Match(PatternOf(thisSpec), h, true)
  {
    hide *;
    var end, current := LevelEnd(q.spec, pos), Current(q.spec, pos);
    var thisSpec := q.spec[..end];
    SearchableIsReadable(q, files);
    EnteredAt(q, files, matched, pos);
    MatchedIsPlain(q, files, matched, pos);
    LevelParts(q.spec, pos, false);
    TextBefore(matched, thisSpec[pos..], false);
    ReadableIsComplete(matched + thisSpec[pos..], false);
    LevelTestsItsFields(q.spec, pos, false);
    ReadableIsUnsigned(current, false);
    ReadableIsUnsigned(thisSpec, false);
    ReadableIsParsed(current, 0);
    ReadableIsParsed(thisSpec, 0);
    TypesOfIs(current);
    HitsAreDistinct(files, LevelPattern(q, matched, pos));
    LevelPatternIs(q, matched, pos);
    forall h
      ensures h in GlobHits(files, LevelPattern(q, matched, pos))
         <==> h in files && Below(q, h, matched, pos) && Match(PatternOf(thisSpec), h, true)
    {
      HitsOfLevel(q, files, matched, pos, h);
    }
  }

  lemma TypesOfIs(spec: string)
    ensures TypesOf(spec) == {} + FieldTypes(Parse(spec, 0).elements)
  {
  }

  lemma LevelPatternIs(q: Search, matched: string, pos: nat)
    requires pos <= |q.spec|
    ensures LevelPattern(q, matched, pos) == Show(PatternOf(matched + q.spec[..LevelEnd(q.spec, pos)][pos..]))
  {
  }

  lemma MatchedIsPlain(q: Search, files: seq<string>, matched: string, pos: nat)
    requires Searchable(q, files) && pos <= |q.spec| && Entered(q, files, matched, pos)
    ensures '%' !in matched && Distinct(files)
  {
    assert matched in files ==> Plain(matched);
  }

  /** What holds for a hit. */
  lemma HitOfLevel(q: Search, files: seq<string>, matched: string, pos: nat, h: string)
    requires Searchable(q, files) && pos <= |q.spec| && Entered(q, files, matched, pos)
    requires h in files && Match(PatternOf(q.spec[..LevelEnd(q.spec, pos)]), h, true)
    ensures var end := LevelEnd(q.spec, pos);
            && InOrder(q.filter)
            && (end < |q.spec| ==> Entered(q, files, h, end))
            && (InReach(q) && q.filter != [] ==>
                  forall t <- TypesOf(Current(q.spec, pos)) :: Extract(Parse(q.spec[..end], 0).elements, h, t).Ok?)
  {
    hide Readable, Match, PatternOf, Extract, Parse, TypesOf, Current, LevelEnd;
    EnteredAt(q, files, matched, pos);
    if InReach(q) && q.filter != [] {
      LevelParts(q.spec, pos, true);
      LevelTestsItsFields(q.spec, pos, true);
      FieldsInRange(q.spec[..LevelEnd(q.spec, pos)], h);
    }
  }

  /** What the search adds for a hit. */
  lemma FoundBelowHit(q: Search, files: seq<string>, pos: nat, h: string, ok: bool, toAdd: seq<string>)
    requires pos <= |q.spec| && h in files && Match(PatternOf(q.spec[..LevelEnd(q.spec, pos)]), h, true)
    requires var end, current := LevelEnd(q.spec, pos), Current(q.spec, pos);
             && ok == (TimeOk(q, q.spec[..end], current, h) && FilterOk(q.filter, q.spec[..end], current, h))
             && (!ok ==> toAdd == [])
             && (ok && end == |q.spec| ==> toAdd == [h])
             && (ok && end < |q.spec| ==>
                   && Distinct(toAdd)
                   && forall p :: p in toAdd <==> p in files && Below(q, p, h, end) && Passes(q, p, end))
    ensures Distinct(toAdd) && forall p :: p in toAdd <==> p in files && Found(q, pos, p, h)
  {
    hide TimeOk, FilterOk, Below, Passes, Match, PatternOf;
    var end := LevelEnd(q.spec, pos);
    assert LevelOkAt(q, h, pos) == ok;
    hide LevelOkAt, LevelEnd, Current;
  }

  lemma NothingFound(q: Search, files: seq<string>, matched: string, pos: nat, hits: seq<string>)
    requires pos <= |q.spec|
    ensures FoundBelow(q, files, matched, pos, hits, 0, [])
  {
  }

  lemma AllFound(q: Search, files: seq<string>, matched: string, pos: nat, hits: seq<string>, rv: seq<string>)
    requires Searchable(q, files) && pos <= |q.spec| && FoundBelow(q, files, matched, pos, hits, |hits|, rv)
    requires var p := PatternOf(q.spec[..LevelEnd(q.spec, pos)]);
             forall h :: h in hits <==> h in files && Below(q, h, matched, pos) && Match(p, h, true)
    ensures Distinct(rv)
    ensures forall p :: p in rv <==> p in files && Below(q, p, matched, pos) && Passes(q, p, pos)
  {
    hide Below, Passes, Match, PatternOf, LevelEnd, Top, Searchable;
    assert hits[..|hits|] == hits;
    forall p | p in files && Below(q, p, matched, pos) && Passes(q, p, pos) ensures Top(q, p, pos) in hits {
      TopIsHit(q, files, matched, pos, p);
    }
  }

  /**
   The search from a level on.  It ends, and finds each file just once that has been matched so far
   and passes all the remaining levels: descending into hits only is as good as testing every file.
   An exception can only come from a filter and a field without a width.
   */
  method FindGlob(q: Search, files: seq<string>, matched: string, pos: nat) returns (ok: bool, rv: seq<string>)
    requires Searchable(q, files) && pos <= |q.spec| && Entered(q, files, matched, pos)
    ensures ok ==> Distinct(rv)
    ensures ok ==> forall p :: p in rv <==> p in files && Below(q, p, matched, pos) && Passes(q, p, pos)
    ensures InReach(q) ==> ok
    decreases |q.spec| - pos
  {
    hide *;
    LevelOfSearch(q, files, matched, pos);
    var srest := LevelEnd(q.spec, pos);
    var thisSpec := q.spec[..srest];
    var patternSpec := matched + thisSpec[pos..];
    var pattern := TransToken(patternSpec);
    var current := Current(q.spec, pos);
    var currentSpecScanner := new Spec();
    var parsed := currentSpecScanner.Init(current);
    var specScanner := new Spec();
    parsed := specScanner.Init(thisSpec);
    var hits := GlobHits(files, pattern);
    rv := [];
    NothingFound(q, files, matched, pos, hits);
    for i := 0 to |hits|
      invariant FoundBelow(q, files, matched, pos, hits, i, rv)
      invariant specScanner.fileSpecString == thisSpec && specScanner.fileSpecList == Parse(thisSpec, 0).elements
      invariant currentSpecScanner.fileSpecString == current && currentSpecScanner.fileSpecSet == TypesOf(current)
    {
      HitOfLevel(q, files, matched, pos, hits[i]);
      FilterInReach(q);
      var matchedFilter;
      ok, matchedFilter := TestHit(q, hits[i], thisSpec, current, specScanner, currentSpecScanner);
      if !ok {
        return;
      }
      var toAdd := [];
      if matchedFilter {
        if srest == |q.spec| {
          toAdd := [hits[i]];
        } else {
          ok, toAdd := FindGlob(q, files, hits[i], srest);
          if !ok {
            return;
          }
        }
      }
      FoundBelowHit(q, files, pos, hits[i], matchedFilter, toAdd);
      FoundMore(q, files, matched, pos, hits, i, rv, toAdd);
      rv := rv + toAdd;
    }
    AllFound(q, files, matched, pos, hits, rv);
    ok := true;
  }

  lemma FilterInReach(q: Search)
    ensures q.filter == [] ==> InReach(q)
  {
  }

  /**
   A search from the start finds exactly the files that pass all levels: that pass the other tests, and
   that no level with time sees outside the periods from the start to the end.
   */
  method FindFiles(q: Search, files: seq<string>) returns (ok: bool, rv: seq<string>)
    requires Searchable(q, files)
    ensures ok ==> Distinct(rv)
    ensures ok ==> forall p :: p in rv <==> p in files && Passes(q, p, 0)
    ensures ok ==> forall p <- rv, pos: nat | pos <= |q.spec| && IsLevel(q, 0, pos) ::
                     && OthersOk(q, p, pos)
                     && (TellsTime(q, pos) ==>
                           var seen, first, last := q.scan(SpecOf(q, pos), Top(q, p, pos)), FirstPeriod(q, pos),
                                                    LastPeriod(q, pos);
                           first <= seen && (seen < last || (first == last && seen < last + 0.1)))
    ensures ok ==> forall p <- rv :: !TooLate(q, p)
    ensures InReach(q) ==> ok
  {
    hide Passes, TooLate, OthersOk, TellsTime, FirstPeriod, LastPeriod, SpecOf, Top, IsLevel;
    ok, rv := FindGlob(q, files, "", 0);
    forall p | ok && p in rv ensures !TooLate(q, p) {
      if TooLate(q, p) {
        LastPeriodIsPruned(q, p);
      }
    }
    forall p, pos: nat | ok && p in rv && pos <= |q.spec| && IsLevel(q, 0, pos)
      ensures OthersOk(q, p, pos)
      ensures TellsTime(q, pos) ==>
                var seen, first, last := q.scan(SpecOf(q, pos), Top(q, p, pos)), FirstPeriod(q, pos),
                                         LastPeriod(q, pos);
                first <= seen && (seen < last || (first == last && seen < last + 0.1))
    {
      PassesExactly(q, p);
    }
  }
}
