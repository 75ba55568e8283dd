/** The container that sorts, merges and thins out file data, and the difference of two such containers. */
module FileFilter {
  import opened Prelude
  import opened Sorting

  // ----- unique

  /** What is left of `rest` behind `kept`: every element is compared with the last one kept. */
  function DedupAfter<T>(eq: (T, T) -> bool, kept: T, rest: seq<T>): (r: seq<T>)
    ensures |r| <= |rest|
  {
    if rest == [] then []
    else if eq(kept, rest[0]) then DedupAfter(eq, kept, rest[1..])
    else [rest[0]] + DedupAfter(eq, rest[0], rest[1..])
  }

  function Dedup<T>(eq: (T, T) -> bool, s: seq<T>): (r: seq<T>)
    ensures |r| <= |s|
  {
    if s == [] then [] else [s[0]] + DedupAfter(eq, s[0], s[1..])
  }

  /** Element ks[i] is kept, and after it all that equal it go. */
  ghost predicate LeadsAt<T(!new)>(eq: (T, T) -> bool, s: seq<T>, ks: seq<nat>, i: nat)
    requires i < |ks|
  {
    var next := if i + 1 < |ks| then ks[i + 1] else |s|;
    && ks[i] < next <= |s|
    && (next < |s| ==> !eq(s[ks[i]], s[next]))
    && forall j | ks[i] < j < next :: eq(s[ks[i]], s[j])
  }

  /** Which elements are kept: the first, and then each first one that does not equal the one kept before it. */
  ghost predicate Leads<T(!new)>(eq: (T, T) -> bool, s: seq<T>, ks: seq<nat>) {
    ks != [] && forall i | 0 <= i < |ks| :: LeadsAt(eq, s, ks, i)
  }

  lemma {:induction false} DedupAfterLeads<T(!new)>(eq: (T, T) -> bool, s: seq<T>, k: nat, n: nat)
    returns (ks: seq<nat>)
    requires k < n <= |s| && forall j | k < j < n :: eq(s[k], s[j])
    ensures Leads(eq, s, ks) && ks[0] == k
    ensures var r := [s[k]] + DedupAfter(eq, s[k], s[n..]);
            |r| == |ks| && forall i | 0 <= i < |ks| :: ks[i] < |s| && r[i] == s[ks[i]]
    decreases |s| - n
  {
    ks := [k];
    if n < |s| {
      hide Leads;
      assert s[n..][0] == s[n] && s[n..][1..] == s[n + 1..];
      if eq(s[k], s[n]) {
        ks := DedupAfterLeads(eq, s, k, n + 1);
      } else {
        var more := DedupAfterLeads(eq, s, n, n + 1);
        LeadsCons(eq, s, k, n, more);
        ks := [k] + more;
      }
    }
  }

  lemma LeadsCons<T(!new)>(eq: (T, T) -> bool, s: seq<T>, k: nat, n: nat, ks: seq<nat>)
    requires k < n < |s| && Leads(eq, s, ks) && ks[0] == n && !eq(s[k], s[n]) && forall j | k < j < n :: eq(s[k], s[j])
    ensures Leads(eq, s, [k] + ks)
  {
    var more := [k] + ks;
    forall i | 0 <= i < |more| ensures LeadsAt(eq, s, more, i) {
      if i > 0 {
        assert LeadsAt(eq, s, ks, i - 1);
        assert more[i] == ks[i - 1] && (i + 1 < |more| ==> more[i + 1] == ks[i]);
      } else {
        assert more[0] == k && more[1] == n;
      }
    }
  }

  /** Thinning out any list, by any test, keeps exactly these elements. */
  lemma DedupLeads<T(!new)>(eq: (T, T) -> bool, s: seq<T>) returns (ks: seq<nat>)
    requires s != []
    ensures Leads(eq, s, ks) && ks[0] == 0
    ensures |Dedup(eq, s)| == |ks| && forall i | 0 <= i < |ks| :: ks[i] < |s| && Dedup(eq, s)[i] == s[ks[i]]
  {
    ks := DedupAfterLeads(eq, s, 0, 1);
  }

  /** In order, and no two equivalent. */
  ghost predicate Increasing<T>(less: (T, T) -> bool, s: seq<T>) {
    forall i, j :: 0 <= i < j < |s| ==> less(s[i], s[j])
  }

  ghost predicate SameKind<T(!new)>(less: (T, T) -> bool, eq: (T, T) -> bool) {
    StrictWeak(less) && forall x, y :: eq(x, y) <==> Equivalent(less, x, y)
  }

  /** Thinning out a sorted list leaves the first of every class, in increasing order. */
  lemma {:induction false} DedupSorted<T(!new)>(less: (T, T) -> bool, eq: (T, T) -> bool, s: seq<T>)
    requires SameKind(less, eq) && Sorted(less, s)
    ensures Increasing(less, Dedup(eq, s))
    ensures forall x :: Class(less, x, Dedup(eq, s)) == Firsts(Class(less, x, s))
  {
    if s != [] {
      assert [s[0]] + s[1..] == s;
      DedupIncreases(less, eq, s[0], s[1..]);
      forall x ensures Class(less, x, Dedup(eq, s)) == Firsts(Class(less, x, s)) {
        DedupClass(less, eq, s[0], s[1..], x);
      }
    }
  }

  lemma IncreasingCons<T(!new)>(less: (T, T) -> bool, x: T, y: T, s: seq<T>)
    requires StrictWeak(less) && less(x, y) && Increasing(less, s) && forall z <- s :: less(y, z)
    ensures Increasing(less, [y] + s) && forall z <- [y] + s :: less(x, z)
  {
    assert forall z <- s :: !less(z, y) && less(x, z);
  }

  lemma {:induction false} DedupIncreases<T(!new)>(less: (T, T) -> bool, eq: (T, T) -> bool, kept: T, rest: seq<T>)
    requires SameKind(less, eq) && Sorted(less, rest) && forall y <- rest :: !less(y, kept)
    ensures Increasing(less, DedupAfter(eq, kept, rest)) && forall y <- DedupAfter(eq, kept, rest) :: less(kept, y)
  {
    if rest != [] {
      var y, more := rest[0], rest[1..];
      assert y in rest && forall z <- more :: z in rest && !less(z, y);
      if eq(kept, y) {
        DedupIncreases(less, eq, kept, more);
      } else {
        DedupIncreases(less, eq, y, more);
        assert less(kept, y);
        IncreasingCons(less, kept, y, DedupAfter(eq, y, more));
      }
    }
  }

  lemma {:induction false} DedupClass<T(!new)>(less: (T, T) -> bool, eq: (T, T) -> bool, kept: T, rest: seq<T>, x: T)
    requires SameKind(less, eq) && Sorted(less, rest) && forall y <- rest :: !less(y, kept)
    ensures Class(less, x, [kept] + DedupAfter(eq, kept, rest)) == Firsts(Class(less, x, [kept] + rest))
  {
    hide Class;
    var r := DedupAfter(eq, kept, rest);
    ClassCons(less, x, kept, r);
    ClassCons(less, x, kept, rest);
    if rest != [] {
      var y, more := rest[0], rest[1..];
      assert y in rest && forall z <- more :: z in rest && !less(z, y);
      assert [y] + more == rest;
      ClassCons(less, x, y, more);
      if eq(kept, y) {
        ClassCons(less, x, kept, more);
        DedupClass(less, eq, kept, more, x);
      } else if Equivalent(less, x, kept) {
        DedupIncreases(less, eq, kept, rest);
        NoneBelow(less, x, r);
      } else {
        DedupClass(less, eq, y, more, x);
      }
    }
  }

  /** Nothing above `x` is in its class. */
  lemma {:induction false} NoneBelow<T>(less: (T, T) -> bool, x: T, s: seq<T>)
    requires forall y <- s :: less(x, y)
    ensures Class(less, x, s) == []
  {
    if s != [] {
      assert s[0] in s && forall y <- s[1..] :: y in s;
      NoneBelow(less, x, s[1..]);
    }
  }

  /** At most the first element. */
  function Firsts<T>(s: seq<T>): seq<T> {
    if s == [] then [] else s[..1]
  }

  // ----- differences

  /** The elements of `l` left when each element of `r` cancels one equivalent of it. */
  function HalfDiff<T>(less: (T, T) -> bool, l: seq<T>, r: seq<T>): (d: seq<T>)
    decreases |l| + |r|
  {
    if l == [] then []
    else if r == [] || less(l[0], r[0]) then [l[0]] + HalfDiff(less, l[1..], r)
    else if less(r[0], l[0]) then HalfDiff(less, l, r[1..])
    else HalfDiff(less, l[1..], r[1..])
  }

  /** The last max(m - n, 0) elements of a class with m elements on the left and n on the right. */
  function Surplus<T>(left: seq<T>, right: seq<T>): seq<T> {
    if |left| <= |right| then [] else left[|right|..]
  }

  /** For sorted lists this is the multiset difference: what each class has in surplus. */
  lemma {:induction false} HalfDiffClasses<T(!new)>(less: (T, T) -> bool, l: seq<T>, r: seq<T>, x: T)
    requires StrictWeak(less) && Sorted(less, l) && Sorted(less, r)
    ensures Class(less, x, HalfDiff(less, l, r)) == Surplus(Class(less, x, l), Class(less, x, r))
    decreases |l| + |r|
  {
    if l == [] {
    } else if r == [] {
      HalfDiffClasses(less, l[1..], r, x);
    } else if less(l[0], r[0]) {
      HalfDiffClasses(less, l[1..], r, x);
      var d := HalfDiff(less, l, r);
      assert d[1..] == HalfDiff(less, l[1..], r);
      if Equivalent(less, x, l[0]) {
        assert forall y <- r :: !less(y, r[0]);
        NoneBelow(less, x, r);
      }
    } else if less(r[0], l[0]) {
      HalfDiffClasses(less, l, r[1..], x);
      if Equivalent(less, x, r[0]) {
        assert forall y <- l :: !less(y, l[0]);
        NoneBelow(less, x, l);
      }
    } else {
      HalfDiffClasses(less, l[1..], r[1..], x);
      assert Equivalent(less, x, l[0]) <==> Equivalent(less, x, r[0]);
    }
  }

  lemma SortedCons<T>(less: (T, T) -> bool, x: T, s: seq<T>)
    requires Sorted(less, s) && forall y <- s :: !less(y, x)
    ensures Sorted(less, [x] + s)
  {
    var r := [x] + s;
    forall i, j | 0 <= i < j < |r| ensures !less(r[j], r[i]) {
      assert r[j] in s;
    }
  }

  lemma {:induction false} HalfDiffSorted<T(!new)>(less: (T, T) -> bool, l: seq<T>, r: seq<T>)
    requires StrictWeak(less) && Sorted(less, l)
    ensures Sorted(less, HalfDiff(less, l, r)) && forall y <- HalfDiff(less, l, r) :: y in l
    decreases |l| + |r|
  {
    if l != [] {
      assert forall y <- l[1..] :: y in l && !less(y, l[0]);
      if r == [] || less(l[0], r[0]) {
        HalfDiffSorted(less, l[1..], r);
        SortedCons(less, l[0], HalfDiff(less, l[1..], r));
      } else if less(r[0], l[0]) {
        HalfDiffSorted(less, l, r[1..]);
      } else {
        HalfDiffSorted(less, l[1..], r[1..]);
      }
    }
  }

  /** What std::set_difference promises: a sorted list of what each class of `l` has in surplus over `r`. */
  ghost predicate SetDifference<T(!new)>(less: (T, T) -> bool, l: seq<T>, r: seq<T>, d: seq<T>) {
    Sorted(less, d) && forall x :: Class(less, x, d) == Surplus(Class(less, x, l), Class(less, x, r))
  }

  /** The hand-written difference is the library's. */
  lemma HalfDiffIsSetDifference<T(!new)>(less: (T, T) -> bool, l: seq<T>, r: seq<T>, d: seq<T>)
    requires StrictWeak(less) && Sorted(less, l) && Sorted(less, r)
    ensures SetDifference(less, l, r, d) <==> d == HalfDiff(less, l, r)
  {
    var h := HalfDiff(less, l, r);
    HalfDiffSorted(less, l, r);
    forall x ensures Class(less, x, h) == Surplus(Class(less, x, l), Class(less, x, r)) {
      HalfDiffClasses(less, l, r, x);
    }
    if SetDifference(less, l, r, d) {
      SortedByClasses(less, d, h);
    }
  }

  /** Both sides lose the same number of elements. */
  lemma {:induction false} HalfDiffBalance<T(!new)>(less: (T, T) -> bool, l: seq<T>, r: seq<T>)
    requires StrictWeak(less)
    ensures |l| - |HalfDiff(less, l, r)| == |r| - |HalfDiff(less, r, l)|
    decreases |l| + |r|
  {
    if l == [] && r == [] {
    } else if r == [] || (l != [] && less(l[0], r[0])) {
      HalfDiffBalance(less, l[1..], r);
    } else if l == [] || less(r[0], l[0]) {
      HalfDiffBalance(less, l, r[1..]);
    } else {
      HalfDiffBalance(less, l[1..], r[1..]);
    }
  }

  // ----- the container

  /** The elements of `s` that fail (or pass) a test, in their order. */
  function Where<T>(s: seq<T>, test: T -> bool, b: bool): (r: seq<T>)
    ensures |r| <= |s|
  {
    if s == [] then [] else (if test(s[0]) == b then [s[0]] else []) + Where(s[1..], test, b)
  }

  /** The elements that pass, as often as they are there; and parts of a list are filtered for themselves. */
  lemma {:induction false} WhereExactly<T>(s: seq<T>, test: T -> bool, b: bool, x: T)
    ensures multiset(Where(s, test, b))[x] == if test(x) == b then multiset(s)[x] else 0
  {
    if s != [] {
      var rest := s[1..];
      WhereExactly(rest, test, b, x);
      WhereCons(s[0], rest, test, b);
      hide Where;
      assert s == [s[0]] + rest;
    }
  }

  lemma {:induction false} WhereAppend<T>(s: seq<T>, t: seq<T>, test: T -> bool, b: bool)
    ensures Where(s + t, test, b) == Where(s, test, b) + Where(t, test, b)
  {
    if s == [] {
      assert s + t == t;
    } else {
      var rest, first := s[1..], if test(s[0]) == b then [s[0]] else [];
      assert s + t == [s[0]] + (rest + t) && s == [s[0]] + rest;
      WhereCons(s[0], rest, test, b);
      WhereCons(s[0], rest + t, test, b);
      hide Where;
      WhereAppend(rest, t, test, b);
      Reassociate(first, Where(rest, test, b), Where(t, test, b));
    }
  }

  lemma WhereCons<T>(x: T, s: seq<T>, test: T -> bool, b: bool)
    ensures Where([x] + s, test, b) == (if test(x) == b then [x] else []) + Where(s, test, b)
  {
    assert ([x] + s)[1..] == s;
  }

  lemma WhereNext<T>(s: seq<T>, i: nat, test: T -> bool, b: bool)
    requires i < |s|
    ensures Where(s[i..], test, b) == (if test(s[i]) == b then [s[i]] else []) + Where(s[i + 1..], test, b)
  {
    assert s[i..][1..] == s[i + 1..];
  }

  /** Erasing the element at a place, or going on to the next one. */
  lemma FilterStep<T>(s: seq<T>, i: nat, more: seq<T>)
    requires i < |s|
    ensures var r := s[..i] + s[i + 1..];
            r[..i] == s[..i] && r[i..] == s[i + 1..] && |r| == |s| - 1
    ensures s[..i] + ([] + more) == s[..i] + more
    ensures s[..i] + ([s[i]] + more) == s[..i + 1] + more
  {
    assert s[..i + 1] == s[..i] + [s[i]];
  }

  lemma InsertBetween<T>(data: seq<T>, i: nat, was: seq<T>)
    requires i < |data|
    ensures var s := data[..i] + was;
            s[..i] + [data[i]] + s[i..] == data[..i + 1] + was
  {
    var s := data[..i] + was;
    assert s[..i] == data[..i] && s[i..] == was;
    assert data[..i + 1] == data[..i] + [data[i]];
  }

  /** A file that cannot be opened has no data. */
  function DataOf<T>(file: Option<seq<T>>): seq<T> {
    match file
    case Some(data) => data
    case None => []
  }

  /** The data of all files that can be opened, one file after the other. */
  function Contents<T>(read: string -> Option<seq<T>>, files: seq<string>): seq<T> {
    if files == [] then []
    else Contents(read, files[..|files| - 1]) + DataOf(read(files[|files| - 1]))
  }

  lemma OneMoreFile<T>(read: string -> Option<seq<T>>, files: seq<string>, i: nat)
    requires i < |files|
    ensures Contents(read, files[..i + 1]) == Contents(read, files[..i]) + DataOf(read(files[i]))
  {
    assert files[..i + 1][..i] == files[..i];
  }

  class FileFilter<T(!new)> {
    var dataVec: seq<T>
    var filtered: nat

    constructor ()
      ensures dataVec == [] && filtered == 0
    {
      dataVec, filtered := [], 0;
    }

    method AddData(x: T)
      modifies this`dataVec
      ensures dataVec == old(dataVec) + [x]
    {
      dataVec := dataVec + [x];
    }

    /** Read files: their data go behind those that are there, datum by datum. */
    method AddFiles(read: string -> Option<seq<T>>, listOfFiles: seq<string>)
      modifies this`dataVec
      ensures dataVec == old(dataVec) + Contents(read, listOfFiles)
    {
      ghost var was := dataVec;
      for i := 0 to |listOfFiles|
        invariant dataVec == was + Contents(read, listOfFiles[..i])
      {
        ghost var before := Contents(read, listOfFiles[..i]);
        var data := DataOf(read(listOfFiles[i]));
        for k := 0 to |data|
          invariant dataVec == was + (before + data[..k])
        {
          assert data[..k + 1] == data[..k] + [data[k]];
          AddData(data[k]);
        }
        assert data[..|data|] == data;
        OneMoreFile(read, listOfFiles, i);
      }
      assert listOfFiles[..|listOfFiles|] == listOfFiles;
    }

    /**
     Insert a list before the first element.  Each insertion goes behind the one before it, so that
     the list keeps its order, as does everything that was there.
     */
    method AddAll(data: seq<T>)
      modifies this`dataVec
      ensures dataVec == data + old(dataVec)
    {
      ghost var was := dataVec;
      assert data[..0] + was == was;
      for i := 0 to |data|
        invariant dataVec == data[..i] + was
      {
        InsertBetween(data, i, was);
        dataVec := dataVec[..i] + [data[i]] + dataVec[i..];
      }
      assert data[..|data|] == data;
    }

    method Merge(right: FileFilter<T>)
      modifies this`dataVec
      ensures dataVec == old(right.dataVec) + old(dataVec)
    {
      AddAll(right.dataVec);
    }

    /**
     Merge and sort: nothing is lost, the result is sorted, and among equivalent data those merged in
     come first, each side in its own order.
     */
    method MergeSorted(right: FileFilter<T>, less: (T, T) -> bool)
      requires StrictWeak(less)
      modifies this`dataVec
      ensures Sorted(less, dataVec) && multiset(dataVec) == multiset(old(right.dataVec)) + multiset(old(dataVec))
      ensures forall x :: Class(less, x, dataVec) == Class(less, x, old(right.dataVec)) + Class(less, x, old(dataVec))
    {
      ghost var merged, was := right.dataVec, dataVec;
      Merge(right);
      Sort(less);
      StableSortSorts(less, merged + was);
      forall x ensures Class(less, x, dataVec) == Class(less, x, merged) + Class(less, x, was) {
        assert Class(less, x, merged + was) == Class(less, x, dataVec);
        ClassAppend(less, x, merged, was);
      }
    }

    method Sort(less: (T, T) -> bool)
      modifies this`dataVec
      ensures dataVec == StableSort(less, old(dataVec))
    {
      dataVec := StableSort(less, dataVec);
    }

    /** Remove the data that equal the last one kept, and count them. */
    method Unique(eq: (T, T) -> bool)
      modifies this
      ensures dataVec == Dedup(eq, old(dataVec))
      ensures filtered == |old(dataVec)| - |dataVec|
    {
      filtered := 0;
      if dataVec == [] {
        return;
      }
      var first, second := 0, 1;
      while second < |dataVec|
        invariant second == first + 1 <= |dataVec| && filtered + |dataVec| == |old(dataVec)|
        invariant Dedup(eq, old(dataVec)) == dataVec[..second] + DedupAfter(eq, dataVec[first], dataVec[second..])
        decreases |dataVec| - second
      {
        var rest := dataVec[second + 1..];
        assert dataVec[second..][1..] == rest;
        if eq(dataVec[first], dataVec[second]) {
          dataVec := dataVec[..second] + rest;
          assert dataVec[second..] == rest;
          filtered := filtered + 1;
        } else {
          assert dataVec[..second + 1] == dataVec[..second] + [dataVec[second]];
          first, second := first + 1, second + 1;
        }
      }
      assert dataVec[..second] == dataVec;
    }

    /** Remove all data that pass the test. */
    method Filter(test: T -> bool)
      modifies this
      ensures dataVec == Where(old(dataVec), test, false)
      ensures filtered == |old(dataVec)| - |dataVec|
    {
      filtered := 0;
      var itr := 0;
      assert dataVec[0..] == dataVec;
      assert Where([], test, false) == [];
      hide Where;
      while itr < |dataVec|
        invariant itr <= |dataVec| && filtered + |dataVec| == |old(dataVec)|
        invariant Where(old(dataVec), test, false) == dataVec[..itr] + Where(dataVec[itr..], test, false)
        decreases |dataVec| - itr
      {
        WhereNext(dataVec, itr, test, false);
        FilterStep(dataVec, itr, Where(dataVec[itr + 1..], test, false));
        if test(dataVec[itr]) {
          dataVec := dataVec[..itr] + dataVec[itr + 1..];
          filtered := filtered + 1;
        } else {
          itr := itr + 1;
        }
      }
      assert dataVec[..itr] == dataVec && dataVec[itr..] == [];
    }

    /** All data that pass the test. */
    method FindAll(test: T -> bool) returns (r: seq<T>)
      ensures r == Where(dataVec, test, true)
    {
      r := [];
      assert dataVec[0..] == dataVec;
      assert Where([], test, true) == [];
      assert dataVec[|dataVec|..] == [];
      hide Where;
      for itr := 0 to |dataVec|
        invariant Where(dataVec, test, true) == r + Where(dataVec[itr..], test, true)
      {
        WhereNext(dataVec, itr, test, true);
        if test(dataVec[itr]) {
          r := r + [dataVec[itr]];
        }
      }
    }

    /** The data here that are not in `right`, both sorted by `less`. */
    method HalfDifference(right: FileFilter<T>, less: (T, T) -> bool) returns (r: seq<T>)
      ensures r == HalfDiff(less, dataVec, right.dataVec)
    {
      r := [];
      var dv, rdv := 0, 0;
      assert dataVec[0..] == dataVec && right.dataVec[0..] == right.dataVec;
      while dv < |dataVec|
        invariant dv <= |dataVec| && rdv <= |right.dataVec|
        invariant HalfDiff(less, dataVec, right.dataVec) == r + HalfDiff(less, dataVec[dv..], right.dataVec[rdv..])
        decreases |dataVec| - dv + |right.dataVec| - rdv
      {
        assert dataVec[dv..][1..] == dataVec[dv + 1..];
        assert rdv < |right.dataVec| ==> right.dataVec[rdv..][1..] == right.dataVec[rdv + 1..];
        if rdv == |right.dataVec| || less(dataVec[dv], right.dataVec[rdv]) {
          r := r + [dataVec[dv]];
          dv := dv + 1;
        } else if less(right.dataVec[rdv], dataVec[dv]) {
          rdv := rdv + 1;
        } else {
          dv, rdv := dv + 1, rdv + 1;
        }
      }
    }
  }

  /**
   Merging, sorting and thinning out: the result increases strictly; each class of the two inputs
   has one representative, the earliest merged in if there is one and else the earliest that was there.
   */
  lemma MergeSortUnique<T(!new)>(less: (T, T) -> bool, eq: (T, T) -> bool, was: seq<T>, merged: seq<T>)
    requires SameKind(less, eq)
    ensures var r := Dedup(eq, StableSort(less, merged + was));
            && Increasing(less, r)
            && forall x :: Class(less, x, r) ==
                 if Class(less, x, merged) != [] then Firsts(Class(less, x, merged)) else Firsts(Class(less, x, was))
  {
    var s := StableSort(less, merged + was);
    StableSortSorts(less, merged + was);
    DedupSorted(less, eq, s);
    forall x
      ensures Firsts(Class(less, x, s)) ==
              if Class(less, x, merged) != [] then Firsts(Class(less, x, merged)) else Firsts(Class(less, x, was))
    {
      assert Class(less, x, merged + was) == Class(less, x, s);
      ClassAppend(less, x, merged, was);
    }
  }

  /** A filter and the search with the same test split the data between them. */
  lemma {:induction false} FilterComplement<T(!new)>(s: seq<T>, test: T -> bool)
    ensures |Where(s, test, true)| + |Where(s, test, false)| == |s|
    ensures multiset(Where(s, test, true)) + multiset(Where(s, test, false)) == multiset(s)
    ensures forall b, y :: y in Where(s, test, b) ==> test(y) == b
  {
    if s != [] {
      FilterComplement(s[1..], test);
      assert s == [s[0]] + s[1..];
    }
  }
}
