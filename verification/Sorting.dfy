/**
 Lists ordered by a strict weak order: equivalence classes, and sorting that keeps the order
 inside each class, which is what std::stable_sort promises.
 */
module Sorting {

  /** `less` is a strict weak order. */
  ghost predicate StrictWeak<T(!new)>(less: (T, T) -> bool) {
    && (forall x, y :: less(x, y) ==> !less(y, x))
    && (forall x, y, z :: less(x, z) ==> less(x, y) || less(y, z))
  }

  predicate Equivalent<T>(less: (T, T) -> bool, x: T, y: T) {
    !less(x, y) && !less(y, x)
  }

  predicate Sorted<T>(less: (T, T) -> bool, s: seq<T>) {
    forall i, j :: 0 <= i < j < |s| ==> !less(s[j], s[i])
  }

  /** The elements of `s` equivalent to `x`, in their order. */
  function Class<T>(less: (T, T) -> bool, x: T, s: seq<T>): (c: seq<T>)
    ensures |c| <= |s|
  {
    if s == [] then []
    else if Equivalent(less, x, s[0]) then [s[0]] + Class(less, x, s[1..])
    else Class(less, x, s[1..])
  }

  /** `t` holds, class by class, the same elements in the same order as `s`. */
  ghost predicate SameClasses<T(!new)>(less: (T, T) -> bool, s: seq<T>, t: seq<T>) {
    forall x :: Class(less, x, s) == Class(less, x, t)
  }

  lemma {:induction false} ClassAppend<T>(less: (T, T) -> bool, x: T, s: seq<T>, t: seq<T>)
    ensures Class(less, x, s + t) == Class(less, x, s) + Class(less, x, t)
  {
    if s == [] {
      assert s + t == t;
    } else {
      assert (s + t)[1..] == s[1..] + t;
      ClassAppend(less, x, s[1..], t);
    }
  }

  lemma ClassCons<T>(less: (T, T) -> bool, x: T, y: T, s: seq<T>)
    ensures Class(less, x, [y] + s) == (if Equivalent(less, x, y) then [y] else []) + Class(less, x, s)
  {
    assert ([y] + s)[1..] == s;
  }

  lemma {:induction false} ClassMembers<T>(less: (T, T) -> bool, x: T, s: seq<T>)
    ensures forall y :: y in Class(less, x, s) <==> y in s && Equivalent(less, x, y)
  {
    if s != [] {
      ClassMembers(less, x, s[1..]);
    }
  }

  /** Equivalent elements have the same class. */
  lemma {:induction false} ClassOfEquivalent<T(!new)>(less: (T, T) -> bool, x: T, y: T, s: seq<T>)
    requires StrictWeak(less) && Equivalent(less, x, y)
    ensures Class(less, x, s) == Class(less, y, s)
  {
    if s != [] {
      ClassOfEquivalent(less, x, y, s[1..]);
      assert Equivalent(less, x, s[0]) <==> Equivalent(less, y, s[0]);
    }
  }

  lemma ClassOfHead<T(!new)>(less: (T, T) -> bool, s: seq<T>)
    requires StrictWeak(less) && s != []
    ensures Class(less, s[0], s) == [s[0]] + Class(less, s[0], s[1..])
  {
  }

  // ----- a stable sort

  /** `x` put in front of the first element that is not less than it. */
  function Insert<T>(less: (T, T) -> bool, x: T, s: seq<T>): seq<T> {
    if s == [] || !less(s[0], x) then [x] + s else [s[0]] + Insert(less, x, s[1..])
  }

  function StableSort<T>(less: (T, T) -> bool, s: seq<T>): seq<T> {
    if s == [] then [] else Insert(less, s[0], StableSort(less, s[1..]))
  }

  lemma {:induction false} InsertPermutes<T>(less: (T, T) -> bool, x: T, s: seq<T>)
    ensures multiset(Insert(less, x, s)) == multiset{x} + multiset(s)
    ensures forall y <- Insert(less, x, s) :: y == x || y in s
  {
    if s != [] && less(s[0], x) {
      InsertPermutes(less, x, s[1..]);
      assert s == [s[0]] + s[1..];
    }
  }

  lemma {:induction false} InsertSorts<T(!new)>(less: (T, T) -> bool, x: T, s: seq<T>)
    requires StrictWeak(less) && Sorted(less, s)
    ensures Sorted(less, Insert(less, x, s))
  {
    if s == [] || !less(s[0], x) {
      assert s != [] ==> forall y :: less(y, x) ==> less(y, s[0]);
    } else {
      InsertSorts(less, x, s[1..]);
      InsertPermutes(less, x, s[1..]);
      var rest := Insert(less, x, s[1..]);
      forall j | 0 <= j < |rest|
        ensures !less(rest[j], s[0])
      {
        assert rest[j] in rest;
        if rest[j] != x {
          var k :| 0 <= k < |s| - 1 && s[1..][k] == rest[j];
          assert s[k + 1] == rest[j];
        }
      }
    }
  }

  /** A later insertion goes in front of its equivalents. */
  lemma {:induction false} InsertClass<T(!new)>(less: (T, T) -> bool, x: T, s: seq<T>, y: T)
    requires StrictWeak(less)
    ensures Class(less, y, Insert(less, x, s)) == Class(less, y, [x]) + Class(less, y, s)
  {
    if s == [] || !less(s[0], x) {
      ClassAppend(less, y, [x], s);
    } else {
      InsertClass(less, x, s[1..], y);
      var t := Insert(less, x, s);
      assert t[0] == s[0] && t[1..] == Insert(less, x, s[1..]);
      assert !(Equivalent(less, y, s[0]) && Equivalent(less, y, x));
      assert Class(less, y, [x]) == if Equivalent(less, y, x) then [x] else [];
    }
  }

  /** The result is sorted, a permutation, and in every class the elements keep their order. */
  lemma {:induction false} StableSortSorts<T(!new)>(less: (T, T) -> bool, s: seq<T>)
    requires StrictWeak(less)
    ensures var t := StableSort(less, s);
            Sorted(less, t) && multiset(t) == multiset(s) && SameClasses(less, s, t)
  {
    if s != [] {
      StableSortSorts(less, s[1..]);
      InsertSorts(less, s[0], StableSort(less, s[1..]));
      InsertPermutes(less, s[0], StableSort(less, s[1..]));
      assert s == [s[0]] + s[1..];
      forall x ensures Class(less, x, s) == Class(less, x, StableSort(less, s)) {
        InsertClass(less, s[0], StableSort(less, s[1..]), x);
        ClassAppend(less, x, [s[0]], s[1..]);
      }
    }
  }

  /** A sorted list is determined by its classes: whatever sorts stably computes the same list. */
  lemma {:induction false} SortedByClasses<T(!new)>(less: (T, T) -> bool, s: seq<T>, t: seq<T>)
    requires StrictWeak(less) && Sorted(less, s) && Sorted(less, t) && SameClasses(less, s, t)
    ensures s == t
  {
    if s == [] {
      if t != [] {
        ClassOfHead(less, t);
      }
    } else {
      var x := s[0];
      ClassMembers(less, x, s);
      ClassMembers(less, x, t);
      assert x in Class(less, x, t);
      var y := t[0];
      ClassMembers(less, y, s);
      ClassMembers(less, y, t);
      assert y in Class(less, y, s);
      assert Equivalent(less, x, y);
      assert Class(less, x, s) == Class(less, x, t);
      assert s[0] == Class(less, x, s)[0] && t[0] == Class(less, x, t)[0];
      forall z ensures Class(less, z, s[1..]) == Class(less, z, t[1..]) {
        assert Class(less, z, s) == Class(less, z, t);
        assert Equivalent(less, z, s[0]) ==> Class(less, z, s[1..]) == Class(less, z, s)[1..];
        assert Equivalent(less, z, t[0]) ==> Class(less, z, t[1..]) == Class(less, z, t)[1..];
      }
      SortedByClasses(less, s[1..], t[1..]);
      assert s == [s[0]] + s[1..] && t == [t[0]] + t[1..];
    }
  }
}
