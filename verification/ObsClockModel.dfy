/** The single-epoch receiver clock: which observations are used, and their statistics. */
module ObsClockModel {
  import opened ExactArithmetic
  import opened Prelude
  import opened Stats

  type SatID = nat

  datatype SvMode = Ignore | Healthy | Always

  datatype SvStatus = Used | Manual | SvHealth | Elevation | Wonky | Sigma

  /** An observed range deviation; health and elevation may be unknown. */
  datatype ObsRngDev = ObsRngDev(svid: SatID, ord: real, health: Option<int>, elevation: Option<real>, wonky: bool)

  /** The observations of an epoch in the order of their keys; each key is the observation's satellite. */
  type OrdMap = seq<ObsRngDev>

  predicate DistinctSats(ords: OrdMap) {
    forall i, j :: 0 <= i < j < |ords| ==> ords[i].svid != ords[j].svid
  }

  /** Bit 5 of the health word summarises it. */
  predicate Unhealthy(health: Option<int>) {
    health.Some? && health.value / 0x20 % 2 == 1
  }

  datatype Masks = Masks(modes: map<SatID, SvMode>, elvmask: real, useWonkyData: bool)

  /** A satellite without a mode is one to be ignored. */
  function ModeOf(masks: Masks, svid: SatID): SvMode {
    if svid in masks.modes then masks.modes[svid] else Ignore
  }

  /** The status before any outlier is looked for: later masks override earlier ones. */
  function MaskStatus(masks: Masks, o: ObsRngDev): SvStatus
    requires o.elevation.Some?
  {
    if o.wonky && !masks.useWonkyData then Wonky
    else if o.elevation.value < masks.elvmask then Elevation
    else match ModeOf(masks, o.svid)
         case Ignore => Manual
         case Always => Used
         case Healthy => if Unhealthy(o.health) then SvHealth else Used
  }

  /** `|dist| > k * sd`, where sd is the square root of the variance `v`. */
  predicate Exceeds(dist: real, k: real, v: real) {
    if k >= 0.0 then Square(dist) > Times(Square(k), v) else v > 0.0 || dist != 0.0
  }

  /** Comparing squares decides the comparison with the standard deviation. */
  lemma ExceedsIsComparison(dist: real, k: real, v: real, sd: real)
    requires sd >= 0.0 && Square(sd) == v
    ensures Exceeds(dist, k, v) <==> Abs(dist) > Times(k, sd)
  {
    if k >= 0.0 {
      var b := Times(k, sd);
      assert b >= 0.0 && Square(b) == Times(Square(k), v) by {
        Associate(Square(k), sd, sd);
        Associate(k, k, sd);
        Associate(k, sd, b);
        Associate(sd, k, sd);
      }
      CompareSquares(Abs(dist), b);
      assert Square(Abs(dist)) == Square(dist);
    } else {
      Signs(-k, sd);
      Signs(sd, sd);
      assert Times(-k, sd) == -Times(k, sd);
    }
  }

  lemma CompareSquares(a: real, b: real)
    requires a >= 0.0 && b >= 0.0
    ensures a > b <==> Square(a) > Square(b)
  {
    assert Square(a) - Square(b) == Times(a - b, a + b) && Square(b) - Square(a) == Times(b - a, a + b);
    Signs(a - b, a + b);
    Signs(b - a, a + b);
  }

  // ----- outliers among the samples

  /** The samples that are not more than k standard deviations from `m`. */
  function Kept(xs: seq<real>, m: real, k: real, v: real): (r: seq<real>)
    ensures |r| <= |xs|
  {
    if xs == [] then []
    else
      var x := xs[|xs| - 1];
      Kept(xs[..|xs| - 1], m, k, v) + if Exceeds(x - m, k, v) then [] else [x]
  }

  /** Every sample that is stripped contributes more than k*k*v to the spread. */
  lemma {:induction false} StrippedSpread(xs: seq<real>, m: real, k: real, v: real)
    requires k >= 0.0
    ensures var stripped := |xs| - |Kept(xs, m, k, v)|;
            if stripped == 0 then Spread(xs, m) >= 0.0
            else Spread(xs, m) > Times(stripped as real, Times(Square(k), v))
  {
    hide Times;
    if xs != [] {
      var rest, x := xs[..|xs| - 1], xs[|xs| - 1];
      StrippedSpread(rest, m, k, v);
      Signs(x - m, x);
      var stripped := |rest| - |Kept(rest, m, k, v)|;
      Distribute(Times(Square(k), v), stripped as real, 1.0);
      TimesOne(Times(Square(k), v));
      TimesZero(Times(Square(k), v));
    }
  }

  lemma TimesZero(x: real)
    ensures Times(0.0, x) == 0.0
  {
  }

  /**
   Chebyshev's bound: of n samples, fewer than (n - 1) / k^2 lie more than k standard deviations
   from the mean, unless none do.
   */
  lemma StrippingBound(xs: seq<real>, k: real)
    requires |xs| > 1 && k >= 0.0
    ensures var stripped := |xs| - |Kept(xs, Mean(xs), k, Variance(xs))|;
            stripped > 0 ==> Times(stripped as real, Square(k)) < (|xs| - 1) as real
  {
    var m, v, n1 := Mean(xs), Variance(xs), (|xs| - 1) as real;
    var stripped := |xs| - |Kept(xs, m, k, v)|;
    StrippedSpread(xs, m, k, v);
    if stripped > 0 {
      Quotient(Spread(xs, m), n1, v);
      assert Times(v, n1) == Spread(xs, m);
      SpreadExpanded(xs, m);
      var s := Times(stripped as real, Square(k));
      assert Times(stripped as real, Times(Square(k), v)) == Times(s, v) by {
        Associate(stripped as real, Square(k), v);
      }
      Associate(v, n1, s);
      Signs(k, v);
      ComparePositive(s, n1, v);
    }
  }

  lemma ComparePositive(a: real, b: real, v: real)
    requires a >= 0.0 && b > 0.0 && Times(b, v) >= 0.0 && Times(a, v) < Times(b, v)
    ensures a < b
  {
  }

  lemma TimesAtLeast(x: real, k: real)
    requires x >= 0.0 && k >= 1.0
    ensures Times(x, k) >= x && Square(k) >= 1.0
  {
  }

  /** With a multiplier of at least one, at least two observations always survive. */
  lemma SomeSurvive(xs: seq<real>, k: real)
    requires |xs| > 1 && k >= 1.0
    ensures |Kept(xs, Mean(xs), k, Variance(xs))| >= 2
  {
    hide Times, Mean, Variance, Kept;
    StrippingBound(xs, k);
    var stripped := |xs| - |Kept(xs, Mean(xs), k, Variance(xs))|;
    if stripped > 0 {
      TimesAtLeast(1.0, k);
      TimesAtLeast(stripped as real, Square(k));
    }
  }

  // ----- when everything can be stripped

  function Alternating(n: nat): (xs: seq<real>)
    ensures |xs| == 2 * n
  {
    if n == 0 then [] else Alternating(n - 1) + [1.0, -1.0]
  }

  lemma AppendTwo(xs: seq<real>, x: real, y: real, m: real, k: real, v: real)
    ensures var s := xs + [x, y];
            && Sum(s) == Sum(xs) + x + y
            && Spread(s, m) == Spread(xs, m) + Square(x - m) + Square(y - m)
            && (Exceeds(x - m, k, v) && Exceeds(y - m, k, v) ==> Kept(s, m, k, v) == Kept(xs, m, k, v))
  {
    hide Exceeds, Square;
    var s, t := xs + [x, y], xs + [x];
    assert s[..|s| - 1] == t && t[..|t| - 1] == xs && s[|s| - 1] == y && t[|t| - 1] == x;
  }

  /** The samples lie one from their mean, which is 0. */
  lemma {:induction false} AlternatingSums(n: nat, k: real, v: real)
    ensures var xs := Alternating(n);
            && Sum(xs) == 0.0 && Spread(xs, 0.0) == 2.0 * n as real
            && (Exceeds(1.0, k, v) && Exceeds(-1.0, k, v) ==> Kept(xs, 0.0, k, v) == [])
  {
    hide *;
    AlternatingStep(n, k, v);
    if n > 0 {
      AlternatingSums(n - 1, k, v);
      AppendTwo(Alternating(n - 1), 1.0, -1.0, 0.0, k, v);
      OneIsSquare();
      assert (n - 1) as real == n as real - 1.0;
    }
  }

  lemma AlternatingStep(n: nat, k: real, v: real)
    ensures n > 0 ==> Alternating(n) == Alternating(n - 1) + [1.0, -1.0]
    ensures Alternating(0) == [] && Sum([]) == 0.0 && Spread([], 0.0) == 0.0 && Kept([], 0.0, k, v) == []
  {
  }

  lemma OneIsSquare()
    ensures Square(1.0 - 0.0) == 1.0 && Square(-1.0 - 0.0) == 1.0
  {
  }

  /** Their variance is a little more than one. */
  lemma AlternatingVariance(n: nat)
    requires n > 1
    ensures var xs := Alternating(n);
            Mean(xs) == 0.0 && Times(Variance(xs), (2 * n - 1) as real) == 2.0 * n as real && Variance(xs) > 0.0
  {
    var xs := Alternating(n);
    AlternatingSums(n, 0.0, 0.0);
    assert Mean(xs) == 0.0;
    Quotient(Spread(xs, 0.0), (2 * n - 1) as real, Variance(xs));
    assert Spread(xs, 0.0) > 0.0;
  }

  lemma RealBelowNat(x: real) returns (n: nat)
    ensures n > 1 && n as real > x
  {
    n := if x < 0.0 then 2 else x.Floor + 2;
  }

  /** Enough pairs for a multiplier from 0 up to one. */
  lemma EnoughPairs(k: real) returns (n: nat)
    requires 0.0 <= k < 1.0
    ensures n > 1 && Times(n as real, 1.0 - Square(k)) > 1.0
  {
    var d := 1.0 - Square(k);
    BelowOne(k);
    var r := 1.0 / d;
    Quotient(1.0, d, r);
    n := RealBelowNat(r);
    hide Times, Square;
    Signs(n as real - r, d);
    Distribute(d, n as real, r);
  }

  lemma BelowOne(k: real)
    requires 0.0 <= k < 1.0
    ensures Square(k) < 1.0
  {
    TimesOne(k);
    hide Times;
    Signs(1.0 - k, k);
    Signs(k, k);
    Distribute(k, 1.0, k);
  }

  /** Then all of them lie too far out. */
  lemma FarOut(n: nat, k: real, v: real)
    requires n > 1 && Times(v, (2 * n - 1) as real) == 2.0 * n as real
    requires Times(n as real, 1.0 - Square(k)) > 1.0
    ensures Times(Square(k), v) < 1.0
  {
    hide Times, Square;
    var q, m := Square(k), (2 * n - 1) as real;
    Distribute(n as real, 1.0, q);
    TimesOne(n as real);
    Associate(n as real, q, 1.0);
    Associate(n as real, 1.0, 1.0);
    Associate(q, v, m);
    Distribute(q, n as real, n as real);
    TimesOne(m);
    CompareProducts(Times(q, v), 1.0, m);
  }

  lemma CompareProducts(a: real, b: real, m: real)
    requires m > 0.0 && Times(a, m) < Times(b, m)
    ensures a < b
  {
  }

  /** For every multiplier below one there are samples of which none is kept. */
  lemma EverythingStripped(k: real) returns (xs: seq<real>)
    requires k < 1.0
    ensures |xs| > 2 && Kept(xs, Mean(xs), k, Variance(xs)) == []
  {
    hide *;
    var n := 2;
    if k >= 0.0 {
      n := EnoughPairs(k);
    }
    xs := Alternating(n);
    AlternatingVariance(n);
    if k >= 0.0 {
      FarOut(n, k, Variance(xs));
    }
    OneExceeds(k, Variance(xs));
    AlternatingSums(n, k, Variance(xs));
  }

  lemma OneExceeds(k: real, v: real)
    requires if k >= 0.0 then Times(Square(k), v) < 1.0 else v > 0.0
    ensures Exceeds(1.0, k, v) && Exceeds(-1.0, k, v)
  {
  }

  ghost predicate SomeKept(k: real) {
    forall xs | |xs| > 2 :: Kept(xs, Mean(xs), k, Variance(xs)) != []
  }

  /** Stripping leaves something of every list exactly when the multiplier is at least one. */
  lemma SomeKeptFromOneOn(k: real)
    ensures SomeKept(k) <==> k >= 1.0
  {
    if k >= 1.0 {
      forall xs | |xs| > 2 ensures Kept(xs, Mean(xs), k, Variance(xs)) != [] {
        SomeSurvive(xs, k);
      }
    } else {
      var xs := EverythingStripped(k);
      assert |xs| > 2;
    }
  }

  /** For example, half a standard deviation strips all of these. */
  lemma AllMayBeStripped()
    ensures var xs := [1.0, -1.0, 1.0, -1.0];
            Kept(xs, Mean(xs), 0.5, Variance(xs)) == []
  {
    var xs := Alternating(2);
    assert xs == Alternating(1) + [1.0, -1.0] && Alternating(1) == Alternating(0) + [1.0, -1.0];
    assert xs == [1.0, -1.0, 1.0, -1.0];
    AlternatingVariance(2);
    assert Variance(xs) == 4.0 / 3.0;
    assert Exceeds(1.0, 0.5, Variance(xs)) && Exceeds(-1.0, 0.5, Variance(xs));
    AlternatingSums(2, 0.5, Variance(xs));
  }

  // ----- the model

  /** The samples of the observations that have status USED. */
  function UsedValues(ords: OrdMap, status: map<SatID, SvStatus>): seq<real>
    requires forall o <- ords :: o.svid in status
  {
    if ords == [] then []
    else
      var o := ords[|ords| - 1];
      UsedValues(ords[..|ords| - 1], status) + if status[o.svid] == Used then [o.ord] else []
  }

  lemma {:induction false} UsedValuesFrame(ords: OrdMap, status: map<SatID, SvStatus>, status': map<SatID, SvStatus>)
    requires forall o <- ords :: o.svid in status && o.svid in status' && status'[o.svid] == status[o.svid]
    ensures UsedValues(ords, status') == UsedValues(ords, status)
  {
    if ords != [] {
      var rest := ords[..|ords| - 1];
      assert forall o <- rest :: o in ords;
      UsedValuesFrame(rest, status, status');
    }
  }

  /** The status of an observation that passes the masks, once the outliers are known. */
  function SigmaStatus(st: SvStatus, ord: real, m: real, k: real, v: real): SvStatus {
    if st == Used && Exceeds(ord - m, k, v) then Sigma else st
  }

  /** The satellites of these observations. */
  function Sats(ords: OrdMap): set<SatID> {
    set o <- ords :: o.svid
  }

  /** The statuses after the first pass. */
  ghost predicate MaskPass(masks: Masks, ords: OrdMap, status: map<SatID, SvStatus>) {
    && status.Keys == Sats(ords)
    && forall o <- ords :: o.elevation.Some? && status[o.svid] == MaskStatus(masks, o)
  }

  /** The statuses after the second pass. */
  ghost predicate SigmaPass(ords: OrdMap, first: map<SatID, SvStatus>, m: real, k: real, v: real,
                            status: map<SatID, SvStatus>)
  {
    && first.Keys == status.Keys
    && forall o <- ords :: o.svid in first && status[o.svid] == SigmaStatus(first[o.svid], o.ord, m, k, v)
  }

  lemma KeptStep(xs: seq<real>, x: real, m: real, k: real, v: real)
    ensures Kept(xs + [x], m, k, v) == Kept(xs, m, k, v) + if Exceeds(x - m, k, v) then [] else [x]
  {
    assert (xs + [x])[..|xs|] == xs;
  }

  lemma UsedStep(ords: OrdMap, o: ObsRngDev, status: map<SatID, SvStatus>)
    requires forall p <- ords :: p.svid in status
    requires o.svid in status
    ensures UsedValues(ords + [o], status) == UsedValues(ords, status) + if status[o.svid] == Used then [o.ord] else []
    ensures status[o.svid] != Used ==> UsedValues(ords + [o], status) == UsedValues(ords, status)
  {
    assert (ords + [o])[..|ords|] == ords;
  }

  lemma SumsStep(xs: seq<real>, x: real)
    ensures Sum(xs + [x]) == Sum(xs) + x && SumSquares(xs + [x]) == SumSquares(xs) + Square(x)
  {
    assert (xs + [x])[..|xs|] == xs;
  }

  /** The second pass, without the last observation and for it. */
  lemma SigmaPassTail(ords: OrdMap, o: ObsRngDev, first: map<SatID, SvStatus>, m: real, k: real, v: real,
                      status: map<SatID, SvStatus>)
    requires SigmaPass(ords + [o], first, m, k, v, status)
    ensures SigmaPass(ords, first, m, k, v, status)
    ensures forall p <- ords + [o] :: p.svid in first && p.svid in status
    ensures forall p <- ords :: p.svid in first && p.svid in status
    ensures o.svid in first && o.svid in status && status[o.svid] == SigmaStatus(first[o.svid], o.ord, m, k, v)
  {
    hide SigmaStatus;
    assert forall p <- ords :: p in ords + [o];
    assert o in ords + [o];
  }

  lemma KeptStatus(st: SvStatus, ord: real, m: real, k: real, v: real)
    ensures SigmaStatus(st, ord, m, k, v) == Used <==> st == Used && !Exceeds(ord - m, k, v)
  {
  }

  lemma NothingKept(first: map<SatID, SvStatus>, m: real, k: real, v: real)
    ensures UsedValues([], first) == [] && Kept([], m, k, v) == []
  {
  }

  lemma {:induction false} SigmaPassKeeps(ords: OrdMap, first: map<SatID, SvStatus>, m: real, k: real, v: real,
                                          status: map<SatID, SvStatus>)
    requires SigmaPass(ords, first, m, k, v, status)
    ensures forall o <- ords :: o.svid in first && o.svid in status
    ensures UsedValues(ords, status) == Kept(UsedValues(ords, first), m, k, v)
  {
    if ords == [] {
      NothingKept(first, m, k, v);
      NothingKept(status, m, k, v);
    } else {
      hide *;
      var rest, o := ords[..|ords| - 1], ords[|ords| - 1];
      assert ords == rest + [o];
      SigmaPassTail(rest, o, first, m, k, v, status);
      SigmaPassKeeps(rest, first, m, k, v, status);
      UsedStep(rest, o, first);
      UsedStep(rest, o, status);
      KeptStatus(first[o.svid], o.ord, m, k, v);
      if first[o.svid] == Used {
        KeptStep(UsedValues(rest, first), o.ord, m, k, v);
        assert Kept(UsedValues(rest, first), m, k, v) + [] == Kept(UsedValues(rest, first), m, k, v);
      }
    }
  }

  /** Satellites have one observation each, so a status for a new one leaves the others alone. */
  lemma MaskPassStep(masks: Masks, ords: OrdMap, o: ObsRngDev, status: map<SatID, SvStatus>)
    requires DistinctSats(ords + [o]) && MaskPass(masks, ords, status) && o.elevation.Some?
    ensures var status' := status[o.svid := MaskStatus(masks, o)];
            && MaskPass(masks, ords + [o], status')
            && UsedValues(ords, status') == UsedValues(ords, status)
  {
    hide MaskStatus;
    var status' := status[o.svid := MaskStatus(masks, o)];
    forall p | p in ords ensures p.svid != o.svid {
      var i :| 0 <= i < |ords| && ords[i] == p;
      assert (ords + [o])[i] == p && (ords + [o])[|ords|] == o;
    }
    assert Sats(ords + [o]) == Sats(ords) + {o.svid} by {
      forall s | s in Sats(ords) ensures s in Sats(ords + [o]) {
        var p :| p in ords && p.svid == s;
        assert p in ords + [o];
      }
      assert o in ords + [o];
    }
    assert forall p <- ords :: p.svid in Sats(ords);
    UsedValuesFrame(ords, status, status');
  }

  /** The statuses an epoch should end with: with three observations or more, outliers are stripped. */
  ghost predicate Settled(ords: OrdMap, masks: Masks, sigmam: real, status: map<SatID, SvStatus>) {
    exists first: map<SatID, SvStatus> :: MaskPass(masks, ords, first) && StrippedFrom(ords, sigmam, first, status)
  }

  ghost predicate StrippedFrom(ords: OrdMap, sigmam: real, first: map<SatID, SvStatus>, status: map<SatID, SvStatus>) {
    && first.Keys == Sats(ords)
    && var xs := UsedValues(ords, first);
       if |xs| > 2 then SigmaPass(ords, first, Mean(xs), sigmam, Variance(xs), status) else status == first
  }

  lemma SigmaPassStep(ords: OrdMap, o: ObsRngDev, first: map<SatID, SvStatus>, m: real, k: real, v: real,
                      status: map<SatID, SvStatus>)
    requires DistinctSats(ords + [o]) && SigmaPass(ords, first, m, k, v, status) && o.svid in first
    ensures SigmaPass(ords + [o], first, m, k, v, status[o.svid := SigmaStatus(first[o.svid], o.ord, m, k, v)])
  {
    hide SigmaStatus;
    forall p | p in ords ensures p.svid != o.svid {
      var i :| 0 <= i < |ords| && ords[i] == p;
      assert (ords + [o])[i] == p && (ords + [o])[|ords|] == o;
    }
  }

  /** How many observations were marked as outliers. */
  function Outliers(ords: OrdMap, status: map<SatID, SvStatus>): nat
    requires forall o <- ords :: o.svid in status
  {
    if ords == [] then 0
    else Outliers(ords[..|ords| - 1], status) + if status[ords[|ords| - 1].svid] == Sigma then 1 else 0
  }

  lemma {:induction false} OutliersWereUsed(ords: OrdMap, first: map<SatID, SvStatus>, m: real, k: real, v: real,
                                            status: map<SatID, SvStatus>)
    requires SigmaPass(ords, first, m, k, v, status)
    requires forall o <- ords :: first[o.svid] != Sigma
    ensures |UsedValues(ords, first)| == |UsedValues(ords, status)| + Outliers(ords, status)
  {
    hide Exceeds;
    if ords != [] {
      hide UsedValues;
      var rest, o := ords[..|ords| - 1], ords[|ords| - 1];
      assert forall p <- rest :: p in ords;
      assert o in ords && ords == rest + [o];
      OutliersWereUsed(rest, first, m, k, v, status);
      UsedStep(rest, o, first);
      UsedStep(rest, o, status);
      assert ords[|ords| - 1] == o;
    }
  }

  lemma NoOutliers(ords: OrdMap, status: map<SatID, SvStatus>)
    requires forall o <- ords :: o.svid in status && status[o.svid] != Sigma
    ensures Outliers(ords, status) == 0
  {
    if ords != [] {
      assert forall o <- ords[..|ords| - 1] :: o in ords;
    }
  }

  lemma MasksMarkNoOutlier(masks: Masks, ords: OrdMap, first: map<SatID, SvStatus>)
    requires MaskPass(masks, ords, first)
    ensures forall o <- ords :: o.svid in first && first[o.svid] != Sigma
  {
    assert forall o <- ords :: o.svid in Sats(ords);
  }

  /**
   What an epoch's final statuses always satisfy: with a multiplier k, the outliers are fewer than
   1/k^2 of the others that passed the masks; so for k >= 1 outliers leave two observations or more.
   */
  lemma OutliersAreFew(ords: OrdMap, masks: Masks, sigmam: real, status: map<SatID, SvStatus>)
    requires Settled(ords, masks, sigmam, status)
    ensures forall o <- ords :: o.svid in status
    ensures var u, m := |UsedValues(ords, status)|, Outliers(ords, status);
            m > 0 && sigmam >= 0.0 ==>
              u + m > 2 && Times(m as real, Square(sigmam)) < (u + m - 1) as real && (sigmam >= 1.0 ==> u >= 2)
  {
    hide Exceeds, Times, Kept, UsedValues, Outliers, MaskStatus, Mean, Variance, MaskPass, SigmaPass;
    var first: map<SatID, SvStatus> :| MaskPass(masks, ords, first) && StrippedFrom(ords, sigmam, first, status);
    MasksMarkNoOutlier(masks, ords, first);
    var xs := UsedValues(ords, first);
    if |xs| > 2 {
      OutliersWereUsed(ords, first, Mean(xs), sigmam, Variance(xs), status);
      SigmaPassKeeps(ords, first, Mean(xs), sigmam, Variance(xs), status);
      if sigmam >= 0.0 {
        StrippingBound(xs, sigmam);
      }
      if sigmam >= 1.0 {
        SomeSurvive(xs, sigmam);
      }
    } else {
      NoOutliers(ords, status);
    }
  }

  /**
   What the masks mean: an observation passes if it is high enough, not odd unless odd data are wanted, and
   its satellite is always used, or used when healthy and not known to be otherwise.
   */
  lemma MasksMean(masks: Masks, ords: OrdMap, status: map<SatID, SvStatus>)
    requires MaskPass(masks, ords, status)
    ensures forall o <- ords :: o.svid in status && o.elevation.Some?
    ensures forall o <- ords ::
              var mode := if o.svid in masks.modes then masks.modes[o.svid] else Ignore;
              var faulty := o.health.Some? && o.health.value / 32 % 2 == 1;
              var low, odd := o.elevation.value < masks.elvmask, o.wonky && !masks.useWonkyData;
              && (status[o.svid] == Used <==> !odd && !low && (mode == Always || (mode == Healthy && !faulty)))
              && (status[o.svid] == Wonky <==> odd) && (status[o.svid] == Elevation <==> !odd && low)
              && (status[o.svid] == Manual <==> !odd && !low && mode == Ignore)
              && (status[o.svid] == SvHealth <==> !odd && !low && mode == Healthy && faulty)
  {
    assert forall o <- ords :: o.svid in Sats(ords);
  }

  /** For example, a satellite in each mode, healthy and not. */
  lemma ModesDiffer(masks: Masks, o: ObsRngDev)
    requires !o.wonky && o.elevation == Some(45.0) && masks.elvmask == 10.0
    ensures masks.modes == map[o.svid := Healthy] && o.health == Some(0) ==> MaskStatus(masks, o) == Used
    ensures masks.modes == map[o.svid := Healthy] && o.health == Some(0x20) ==> MaskStatus(masks, o) == SvHealth
    ensures masks.modes == map[o.svid := Healthy] && o.health == None ==> MaskStatus(masks, o) == Used
    ensures masks.modes == map[o.svid := Always] && o.health == Some(0x20) ==> MaskStatus(masks, o) == Used
    ensures masks.modes == map[o.svid := Ignore] && o.health == Some(0) ==> MaskStatus(masks, o) == Manual
    ensures masks.modes == map[] && o.health == Some(0) ==> MaskStatus(masks, o) == Manual
  {
  }

  /** The values of the observations of some satellites. */
  function ValuesOf(ords: OrdMap, sats: set<SatID>): seq<real> {
    if ords == [] then []
    else ValuesOf(ords[..|ords| - 1], sats) + if ords[|ords| - 1].svid in sats then [ords[|ords| - 1].ord] else []
  }

  lemma {:induction false} UsedAreValues(ords: OrdMap, status: map<SatID, SvStatus>, sats: set<SatID>)
    requires forall o <- ords :: o.svid in status && (o.svid in sats <==> status[o.svid] == Used)
    ensures UsedValues(ords, status) == ValuesOf(ords, sats)
  {
    if ords != [] {
      var rest := ords[..|ords| - 1];
      assert forall o <- rest :: o in ords;
      UsedAreValues(rest, status, sats);
      assert ords[|ords| - 1] in ords;
    }
  }

  /**
   The statuses an epoch ends with: those that pass the masks are used, but with more than two of them
   those too far from their mean are outliers; the others have the status of the mask that stops them.
   */
  lemma SettledMeans(ords: OrdMap, masks: Masks, sigmam: real, status: map<SatID, SvStatus>)
    requires Settled(ords, masks, sigmam, status)
    ensures forall o <- ords :: o.svid in status && o.elevation.Some?
    ensures forall o <- ords ::
              var mode := if o.svid in masks.modes then masks.modes[o.svid] else Ignore;
              var faulty := o.health.Some? && o.health.value / 32 % 2 == 1;
              var low, odd := o.elevation.value < masks.elvmask, o.wonky && !masks.useWonkyData;
              && (status[o.svid] in {Used, Sigma} <==> !odd && !low && (mode == Always || (mode == Healthy && !faulty)))
              && (status[o.svid] == Wonky <==> odd) && (status[o.svid] == Elevation <==> !odd && low)
              && (status[o.svid] == Manual <==> !odd && !low && mode == Ignore)
              && (status[o.svid] == SvHealth <==> !odd && !low && mode == Healthy && faulty)
    ensures var xs := ValuesOf(ords, Passing(ords, status));
            forall o <- ords | status[o.svid] in {Used, Sigma} ::
              status[o.svid] == if |xs| > 2 && Exceeds(o.ord - Mean(xs), sigmam, Variance(xs)) then Sigma else Used
  {
    hide Exceeds, Mean, Variance, MaskStatus, UsedValues, ValuesOf, MaskPass, StrippedFrom, Sats, Passing;
    var first: map<SatID, SvStatus> :| MaskPass(masks, ords, first) && StrippedFrom(ords, sigmam, first, status);
    MasksMean(masks, ords, first);
    MasksMarkNoOutlier(masks, ords, first);
    FirstPassKept(ords, sigmam, first, status);
    PassingIs(ords, first, status);
    UsedAreValues(ords, first, Passing(ords, status));
    hide Settled;
  }

  /** The satellites whose observations passed the masks. */
  function Passing(ords: OrdMap, status: map<SatID, SvStatus>): set<SatID>
    requires forall o <- ords :: o.svid in status
  {
    set o <- ords | status[o.svid] in {Used, Sigma} :: o.svid
  }

  lemma PassingIs(ords: OrdMap, first: map<SatID, SvStatus>, status: map<SatID, SvStatus>)
    requires forall o <- ords ::
               o.svid in first && o.svid in status && (status[o.svid] in {Used, Sigma} <==> first[o.svid] == Used)
    ensures forall o <- ords :: o.svid in Passing(ords, status) <==> first[o.svid] == Used
  {
  }

  /** Outliers are found among the used, and nothing else changes. */
  lemma FirstPassKept(ords: OrdMap, sigmam: real, first: map<SatID, SvStatus>, status: map<SatID, SvStatus>)
    requires StrippedFrom(ords, sigmam, first, status)
    requires forall o <- ords :: o.svid in first && first[o.svid] != Sigma
    ensures forall o <- ords ::
              && o.svid in status
              && (status[o.svid] in {Used, Sigma} <==> first[o.svid] == Used)
              && (first[o.svid] != Used ==> status[o.svid] == first[o.svid])
    ensures var xs := UsedValues(ords, first);
            forall o <- ords | status[o.svid] in {Used, Sigma} ::
              status[o.svid] == if |xs| > 2 && Exceeds(o.ord - Mean(xs), sigmam, Variance(xs)) then Sigma else Used
  {
    hide Exceeds, Mean, Variance, UsedValues;
  }

  /** The statistics are those of these samples. */
  ghost predicate Holds(stat: Statistics, xs: seq<real>)
    reads stat
  {
    stat.Valid() && stat.n == |xs| && stat.Total() == Sum(xs) && stat.TotalSquares() == SumSquares(xs)
  }

  lemma MaskPassNone(masks: Masks)
    ensures MaskPass(masks, [], map[]) && UsedValues([], map[]) == []
  {
  }

  lemma SameModes(masks: Masks, masks': Masks, o: ObsRngDev)
    requires o.elevation.Some? && ModeOf(masks, o.svid) == ModeOf(masks', o.svid)
    requires masks.elvmask == masks'.elvmask && masks.useWonkyData == masks'.useWonkyData
    ensures MaskStatus(masks, o) == MaskStatus(masks', o)
  {
  }

  class ClockModel {
    var sigmam: real
    var elvmask: real
    var useWonkyData: bool
    var status: map<SatID, SvStatus>
    var modes: map<SatID, SvMode>

    constructor (sigma: real, elmask: real, modes: map<SatID, SvMode>)
      ensures sigmam == sigma && elvmask == elmask && !useWonkyData && status == map[] && this.modes == modes
    {
      sigmam, elvmask, useWonkyData, status := sigma, elmask, false, map[];
      this.modes := modes;
    }

    function CurrentMasks(): Masks
      reads this
    {
      Masks(modes, elvmask, useWonkyData)
    }

    /** The status of one observation from the masks; an unknown elevation is an exception. */
    method Mark(o: ObsRngDev) returns (ok: bool)
      modifies this`status, this`modes
      ensures ok <==> o.elevation.Some?
      ensures forall s :: ModeOf(CurrentMasks(), s) == old(ModeOf(CurrentMasks(), s))
      ensures ok ==> status == old(status)[o.svid := MaskStatus(old(CurrentMasks()), o)]
    {
      if o.svid !in modes {
        modes := modes[o.svid := Ignore];
      }
      match modes[o.svid] {
        case Ignore =>
          status := status[o.svid := Manual];
        case Always =>
          status := status[o.svid := Used];
        case Healthy =>
          if o.health.Some? && o.health.value / 0x20 % 2 == 1 {
            status := status[o.svid := SvHealth];
          } else {
            status := status[o.svid := Used];
          }
      }
      if o.elevation == None {
        return false;
      }
      if o.elevation.value < elvmask {
        status := status[o.svid := Elevation];
      }
      if o.wonky && !useWonkyData {
        status := status[o.svid := Wonky];
      }
      ok := true;
    }

    /** Add an observation to the statistics if it is to be used. */
    method AddIfUsed(o: ObsRngDev, stat: Statistics, ghost xs: seq<real>)
      requires o.svid in status && Holds(stat, xs)
      modifies stat
      ensures Holds(stat, xs + if status[o.svid] == Used then [o.ord] else [])
    {
      if status[o.svid] == Used {
        SumsStep(xs, o.ord);
        hide Sum, SumSquares, Square;
        stat.Add(o.ord);
      } else {
        assert xs + [] == xs;
      }
    }

    /** Mark the observation that follows `before`, and add it up if it is to be used. */
    method ApplyMask(o: ObsRngDev, stat: Statistics, ghost masks: Masks, ghost before: OrdMap) returns (ok: bool)
      requires DistinctSats(before + [o]) && Settling(stat, masks, before)
      requires forall s :: ModeOf(CurrentMasks(), s) == ModeOf(masks, s)
      modifies this`status, this`modes, stat
      ensures stat.Valid()
      ensures ok <==> o.elevation.Some?
      ensures forall s :: ModeOf(CurrentMasks(), s) == ModeOf(masks, s)
      ensures ok ==> Settling(stat, masks, before + [o])
    {
      assert forall p <- before :: p.svid in Sats(before);
      hide MaskStatus, UsedValues, Sats, ModeOf;
      ghost var was := status;
      ghost var now := CurrentMasks();
      ok := Mark(o);
      if ok {
        SameModes(masks, now, o);
        MaskPassStep(masks, before, o, was);
        assert forall p <- before :: p.svid in was;
        UsedStep(before, o, status);
        AddIfUsed(o, stat, UsedValues(before, status));
      }
    }

    /** Give every observation the status the masks call for, and add up those to be used. */
    method ApplyMasks(ords: OrdMap, stat: Statistics) returns (ok: bool)
      requires DistinctSats(ords) && stat.Valid() && stat.n == 0
      modifies this`status, this`modes, stat
      ensures stat.Valid()
      ensures ok <==> forall o <- ords :: o.elevation.Some?
      ensures forall s :: ModeOf(CurrentMasks(), s) == old(ModeOf(CurrentMasks(), s))
      ensures ok ==> MaskPass(old(CurrentMasks()), ords, status) && Holds(stat, UsedValues(ords, status))
      ensures ok ==> forall o <- ords :: o.svid in status && o.elevation.Some?
      ensures ok ==>
                forall o <- ords ::
                  var mode := if o.svid in old(modes) then old(modes)[o.svid] else Ignore;
                  var faulty := o.health.Some? && o.health.value / 32 % 2 == 1;
                  var low, odd := o.elevation.value < elvmask, o.wonky && !useWonkyData;
                  && (status[o.svid] == Used <==> !odd && !low && (mode == Always || (mode == Healthy && !faulty)))
                  && (status[o.svid] == Wonky <==> odd) && (status[o.svid] == Elevation <==> !odd && low)
                  && (status[o.svid] == Manual <==> !odd && !low && mode == Ignore)
                  && (status[o.svid] == SvHealth <==> !odd && !low && mode == Healthy && faulty)
    {
      status := map[];
      ghost var masks := CurrentMasks();
      MaskPassNone(masks);
      assert Holds(stat, []);
      hide MaskStatus, Holds, UsedValues, Sats, ModeOf;
      for i := 0 to |ords|
        invariant Settling(stat, masks, ords[..i])
        invariant forall s :: ModeOf(CurrentMasks(), s) == ModeOf(masks, s)
      {
        assert ords[..i + 1] == ords[..i] + [ords[i]];
        ok := ApplyMask(ords[i], stat, masks, ords[..i]);
        if !ok {
          assert ords[i] in ords;
          return;
        }
      }
      assert ords[..|ords|] == ords;
      ok := true;
      MasksMean(masks, ords, status);
      hide MaskPass;
    }

    /** The state of the first pass after these observations. */
    ghost predicate Settling(stat: Statistics, masks: Masks, ords: OrdMap)
      reads this, stat
    {
      && stat.Valid() && elvmask == masks.elvmask && useWonkyData == masks.useWonkyData
      && MaskPass(masks, ords, status) && Holds(stat, UsedValues(ords, status))
    }

    /** Mark an observation that is an outlier. */
    method MarkOutlier(o: ObsRngDev, stat: Statistics, ghost xs: seq<real>)
      requires o.svid in status && Holds(stat, xs)
      modifies this`status
      ensures status == old(status)[o.svid := SigmaStatus(old(status[o.svid]), o.ord, Mean(xs), sigmam, Variance(xs))]
    {
      hide Exceeds, Mean, Variance;
      stat.AccessorsAgree(xs);
      if status[o.svid] == Used {
        var dist := o.ord - stat.Average();
        if Exceeds(dist, sigmam, stat.SampleVariance()) {
          status := status[o.svid := Sigma];
        }
      }
    }

    /** The second pass: strip the outliers. */
    method StripOutliers(ords: OrdMap, stat: Statistics, ghost xs: seq<real>)
      requires DistinctSats(ords) && status.Keys == Sats(ords)
      requires Holds(stat, xs)
      modifies this`status
      ensures SigmaPass(ords, old(status), Mean(xs), sigmam, Variance(xs), status) && status.Keys == old(status).Keys
    {
      hide Exceeds, Mean, Variance, Holds, UsedValues, SigmaStatus;
      ghost var first := status;
      assert forall o <- ords :: o.svid in Sats(ords);
      hide Sats;
      for i := 0 to |ords|
        invariant Holds(stat, xs)
        invariant SigmaPass(ords[..i], first, Mean(xs), sigmam, Variance(xs), status)
        invariant forall j :: i <= j < |ords| ==> status[ords[j].svid] == first[ords[j].svid]
      {
        assert ords[..i + 1] == ords[..i] + [ords[i]];
        SigmaPassStep(ords[..i], ords[i], first, Mean(xs), sigmam, Variance(xs), status);
        MarkOutlier(ords[i], stat, xs);
      }
      assert ords[..|ords|] == ords;
    }

    /** The third pass: add up what is left. */
    method AddUsed(ords: OrdMap, stat: Statistics)
      requires status.Keys == Sats(ords)
      modifies stat
      ensures stat.Valid()
      ensures forall o <- ords :: o.svid in status
      ensures Holds(stat, UsedValues(ords, status))
    {
      assert forall o <- ords :: o.svid in Sats(ords);
      stat.Reset();
      hide Holds, UsedValues, Sats;
      for i := 0 to |ords|
        invariant Holds(stat, UsedValues(ords[..i], status))
      {
        assert ords[..i + 1] == ords[..i] + [ords[i]];
        UsedStep(ords[..i], ords[i], status);
        AddIfUsed(ords[i], stat, UsedValues(ords[..i], status));
      }
      assert ords[..|ords|] == ords;
    }

    /**
     The clock of an epoch: the statistics of the observations whose status is USED in the end.
     Without an elevation for every observation there is an exception.
     */
    method SimpleOrdClock(ords: OrdMap) returns (ok: bool, stat: Statistics)
      requires DistinctSats(ords)
      modifies this`status, this`modes
      ensures fresh(stat) && stat.Valid()
      ensures ok <==> forall o <- ords :: o.elevation.Some?
      ensures forall s :: ModeOf(CurrentMasks(), s) == old(ModeOf(CurrentMasks(), s))
      ensures ok ==> Settled(ords, old(CurrentMasks()), sigmam, status)
      ensures ok ==> status.Keys == Sats(ords) && Holds(stat, UsedValues(ords, status))
      ensures ok ==> forall o <- ords :: o.svid in status && o.elevation.Some?
      ensures ok ==>
                forall o <- ords ::
                  var mode := if o.svid in old(modes) then old(modes)[o.svid] else Ignore;
                  var faulty := o.health.Some? && o.health.value / 32 % 2 == 1;
                  var low, odd := o.elevation.value < elvmask, o.wonky && !useWonkyData;
                  && (status[o.svid] in {Used, Sigma}
                      <==> !odd && !low && (mode == Always || (mode == Healthy && !faulty)))
                  && (status[o.svid] == Wonky <==> odd) && (status[o.svid] == Elevation <==> !odd && low)
                  && (status[o.svid] == Manual <==> !odd && !low && mode == Ignore)
                  && (status[o.svid] == SvHealth <==> !odd && !low && mode == Healthy && faulty)
      ensures ok ==>
                var xs := ValuesOf(ords, Passing(ords, status));
                forall o <- ords | status[o.svid] in {Used, Sigma} ::
                  status[o.svid] == if |xs| > 2 && Exceeds(o.ord - Mean(xs), sigmam, Variance(xs)) then Sigma else Used
    {
      stat := new Statistics();
      ok := AllPasses(ords, stat);
      if ok {
        SettledMeans(ords, old(CurrentMasks()), sigmam, status);
      }
      hide *;
    }

    /** The three passes. */
    method AllPasses(ords: OrdMap, stat: Statistics) returns (ok: bool)
      requires DistinctSats(ords) && stat.Valid() && stat.n == 0
      modifies this`status, this`modes, stat
      ensures stat.Valid()
      ensures ok <==> forall o <- ords :: o.elevation.Some?
      ensures forall s :: ModeOf(CurrentMasks(), s) == old(ModeOf(CurrentMasks(), s))
      ensures ok ==> Settled(ords, old(CurrentMasks()), sigmam, status)
      ensures ok ==> status.Keys == Sats(ords) && Holds(stat, UsedValues(ords, status))
    {
      ok := ApplyMasks(ords, stat);
      ghost var first := status;
      hide MaskStatus, Mean, Variance;
      if ok {
        if stat.n > 2 {
          StripOutliers(ords, stat, UsedValues(ords, status));
          AddUsed(ords, stat);
        }
        assert MaskPass(old(CurrentMasks()), ords, first) && StrippedFrom(ords, sigmam, first, status);
      }
    }
  }
}
