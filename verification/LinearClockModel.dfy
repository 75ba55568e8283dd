/**
 The receiver clock over time: a least-squares line through the observations of the last half hour.
 `Step` says what an epoch does to the clock, with every sum taken afresh; the class keeps running
 sums instead.
 */
module LinearClockModel {
  import opened ExactArithmetic
  import opened Stats
  import opened ObsClockModel

  /** Times are in seconds. */
  const BEGINNING_OF_TIME: real := 0.0
  const END_OF_TIME: real := 3442448.0 * 86400.0

  const WINDOW: real := 1800.0
  const TOLERANCE: real := 20.0
  const PATIENCE: nat := 5

  /** A time after the base time, and the range deviation observed then. */
  type Observation = (real, real)

  /** The observations in use, the times they cover, their base, and the epochs rejected in a row. */
  datatype Clock = Clock(obs: seq<Observation>, start: real, end: real, base: real, tossed: nat)

  datatype Epoch = Epoch(time: real, used: seq<real>)

  // ----- the observations

  /** Observations are kept in order of time, and at one time in order of arrival. */
  function Insert(obs: seq<Observation>, p: Observation): seq<Observation> {
    if obs == [] || obs[0].0 > p.0 then [p] + obs else [obs[0]] + Insert(obs[1..], p)
  }

  function InsertAll(obs: seq<Observation>, dt: real, used: seq<real>): seq<Observation> {
    if used == [] then obs else Insert(InsertAll(obs, dt, used[..|used| - 1]), (dt, used[|used| - 1]))
  }

  /** The observations not more than the window's length before `dt`. */
  function Recent(obs: seq<Observation>, dt: real): (r: seq<Observation>)
    ensures |r| <= |obs|
    ensures forall o <- r :: o in obs && dt - o.0 <= WINDOW
  {
    if obs == [] then [] else (if dt - obs[0].0 > WINDOW then [] else [obs[0]]) + Recent(obs[1..], dt)
  }

  predicate InOrder(obs: seq<Observation>) {
    forall i, j :: 0 <= i < j < |obs| ==> obs[i].0 <= obs[j].0
  }

  lemma {:induction false} InsertSums(obs: seq<Observation>, p: Observation)
    ensures var r := Insert(obs, p);
            && |r| == |obs| + 1
            && SumX(r) == SumX(obs) + p.0 && SumY(r) == SumY(obs) + p.1
            && SumXX(r) == SumXX(obs) + Square(p.0) && SumXY(r) == SumXY(obs) + Times(p.0, p.1)
  {
    hide Times, Square;
    var r := Insert(obs, p);
    if obs == [] || obs[0].0 > p.0 {
      assert r[1..] == obs && r[0] == p;
    } else {
      InsertSums(obs[1..], p);
      assert r[1..] == Insert(obs[1..], p) && r[0] == obs[0];
    }
  }

  lemma {:induction false} InsertContents(obs: seq<Observation>, p: Observation)
    ensures multiset(Insert(obs, p)) == multiset(obs) + multiset{p}
  {
    if !(obs == [] || obs[0].0 > p.0) {
      InsertContents(obs[1..], p);
      assert obs == [obs[0]] + obs[1..];
    }
  }

  lemma InsertMembers(obs: seq<Observation>, p: Observation)
    ensures forall o :: o in Insert(obs, p) <==> o == p || o in obs
  {
    InsertContents(obs, p);
    forall o ensures o in Insert(obs, p) <==> o == p || o in obs {
      assert o in Insert(obs, p) <==> o in multiset(Insert(obs, p));
      assert o in obs <==> o in multiset(obs);
    }
  }

  lemma {:induction false} InsertInOrder(obs: seq<Observation>, p: Observation)
    requires InOrder(obs)
    ensures InOrder(Insert(obs, p))
  {
    if obs == [] || obs[0].0 > p.0 {
      assert forall i | 0 < i <= |obs| :: Insert(obs, p)[i] == obs[i - 1];
    } else {
      InsertInOrder(obs[1..], p);
      InsertMembers(obs[1..], p);
      var r := Insert(obs[1..], p);
      assert forall q <- obs[1..] :: obs[0].0 <= q.0;
      assert forall i | 0 <= i < |r| :: r[i] in r && obs[0].0 <= r[i].0;
    }
  }

  lemma {:induction false} RecentInOrder(obs: seq<Observation>, dt: real)
    requires InOrder(obs)
    ensures InOrder(Recent(obs, dt))
  {
    if obs != [] {
      RecentInOrder(obs[1..], dt);
    }
  }

  lemma {:induction false} AllRecent(obs: seq<Observation>, dt: real)
    requires forall o <- obs :: dt - o.0 <= WINDOW
    ensures Recent(obs, dt) == obs
  {
    if obs != [] {
      AllRecent(obs[1..], dt);
    }
  }

  // ----- one epoch

  /** The line through the observations, `dt` after the base time. */
  function Estimate(obs: seq<Observation>, dt: real): real {
    if obs == [] then 0.0
    else
      var n := |obs|;
      var slope := LineSlope(n, SumX(obs), SumY(obs), SumXX(obs), SumXY(obs));
      Times(slope, dt) + Intercept(n, SumX(obs), SumY(obs), slope)
  }

  /** The covered times are extended by the epoch; with nothing in the store they start afresh. */
  function Extended(c: Clock, t: real): Clock {
    if c.obs == [] then Clock([], t, t, t, 0)
    else c.(start := if t < c.start then t else c.start, end := if t > c.end then t else c.end)
  }

  /** With enough observations, an epoch whose clock is off the line is rejected. */
  predicate Rejected(c: Clock, e: Epoch) {
    |c.obs| > 24 && Abs(Mean(e.used) - Estimate(c.obs, e.time - c.base)) > TOLERANCE
  }

  predicate Resets(c: Clock, e: Epoch) {
    Rejected(c, e) && c.tossed >= PATIENCE
  }

  /** What an epoch makes of the clock before old observations are dropped. */
  function Taken(c: Clock, e: Epoch): Clock {
    var b := Extended(c, e.time);
    if Resets(c, e) then Clock([], END_OF_TIME, BEGINNING_OF_TIME, c.base, 0)
    else if Rejected(c, e) then b.(tossed := b.tossed + 1)
    else b.(tossed := 0, obs := InsertAll(b.obs, e.time - b.base, e.used))
  }

  function Step(c: Clock, e: Epoch): Clock {
    var b := Taken(c, e);
    b.(obs := Recent(b.obs, e.time - Extended(c, e.time).base))
  }

  // ----- which epochs are taken in

  /** The estimate is that of the only best line through observations that are not all of one time. */
  lemma EstimateOfBestLine(obs: seq<Observation>, m: real, b: real, dt: real)
    requires exists p <- obs, q <- obs :: p.0 != q.0
    requires forall m', b' :: Residuals(obs, m, b) <= Residuals(obs, m', b')
    ensures Estimate(obs, dt) == Times(m, dt) + b
  {
    var p, q :| p in obs && q in obs && p.0 != q.0;
    OneLineIsBest(obs, m, b);
    hide *;
    EstimateIs(obs, dt);
  }

  lemma LineHasTwo(obs: seq<Observation>, base: real, a: real, b: real)
    requires BestLine(obs, base, a, b)
    ensures |obs| > 1
  {
  }

  lemma EstimateIs(obs: seq<Observation>, dt: real)
    requires obs != []
    ensures var m := LineSlope(|obs|, SumX(obs), SumY(obs), SumXX(obs), SumXY(obs));
            Estimate(obs, dt) == Times(m, dt) + Intercept(|obs|, SumX(obs), SumY(obs), m)
  {
  }

  /** When they are all of one time, the estimate is their mean. */
  lemma EstimateOfOneTime(obs: seq<Observation>, dt: real)
    requires obs != [] && forall p <- obs, q <- obs :: p.0 == q.0
    ensures Estimate(obs, dt) == SumY(obs) / |obs| as real
  {
    DeterminedExactly(obs);
    hide SumX, SumY, SumXX, SumXY;
    assert Times(0.0, dt) == 0.0 && Times(0.0, SumX(obs) / |obs| as real) == 0.0;
  }

  /** The observations lie on the line a + b t, and not all at one time. */
  predicate OnLine(obs: seq<Observation>, base: real, a: real, b: real) {
    (exists p <- obs, q <- obs :: p.0 != q.0) && forall o <- obs :: o.1 == a + Times(b, base + o.0)
  }

  /** No line has a smaller sum of squared distances than a + b t, and there is only one such line. */
  ghost predicate BestLine(obs: seq<Observation>, base: real, a: real, b: real) {
    && (exists p <- obs, q <- obs :: p.0 != q.0)
    && forall m, c :: Residuals(obs, b, a + Times(b, base)) <= Residuals(obs, m, c)
  }

  /** A line that all observations lie on is the best one. */
  lemma OnLineIsBest(obs: seq<Observation>, base: real, a: real, b: real)
    requires OnLine(obs, base, a, b)
    ensures BestLine(obs, base, a, b)
  {
    hide Times, Residuals;
    var c := a + Times(b, base);
    forall o | o in obs ensures o.1 == Times(b, o.0) + c {
      Distribute(b, base, o.0);
    }
    ExactLineIsBest(obs, b, c);
    forall m', c' ensures Residuals(obs, b, c) <= Residuals(obs, m', c') {
      ResidualsAreSquares(obs, m', c');
    }
  }

  lemma EstimateOnLine(obs: seq<Observation>, base: real, a: real, b: real, t: real)
    requires BestLine(obs, base, a, b)
    ensures Estimate(obs, t - base) == a + Times(b, t)
  {
    hide Times, Residuals, Estimate;
    EstimateOfBestLine(obs, b, a + Times(b, base), t - base);
    Distribute(b, t, base);
  }

  function Count<T(==)>(s: seq<T>, x: T): nat {
    multiset(s)[x]
  }

  /** How often the store has an observation after an epoch that adds `used` at `dt`. */
  lemma CountsAfter(obs: seq<Observation>, dt: real, used: seq<real>, p: Observation)
    ensures Count(Recent(InsertAll(obs, dt, used), dt), p)
         == if dt - p.0 <= 1800.0 then Count(obs, p) + (if p.0 == dt then Count(used, p.1) else 0) else 0
    ensures Count(Recent(obs, dt), p) == if dt - p.0 <= 1800.0 then Count(obs, p) else 0
  {
    InsertAllCounts(obs, dt, used, p);
    RecentCounts(InsertAll(obs, dt, used), dt, p);
    RecentCounts(obs, dt, p);
  }

  /** The epoch is taken in: its observations are added, and those too old are dropped. */
  ghost predicate Joined(c: Clock, e: Epoch, c': Clock) {
    && c'.tossed == 0 && c'.base == (if c.obs == [] then e.time else c.base)
    && c'.start == (if c.obs == [] || e.time < c.start then e.time else c.start)
    && c'.end == (if c.obs == [] || e.time > c.end then e.time else c.end)
    && forall p :: Count(c'.obs, p) ==
         var dt := e.time - c'.base;
         if dt - p.0 <= 1800.0 then Count(c.obs, p) + (if p.0 == dt then Count(e.used, p.1) else 0) else 0
  }

  /** The epoch adds nothing: it is counted, and the sixth in a row clears the store. */
  ghost predicate TurnedDown(c: Clock, e: Epoch, c': Clock) {
    && c'.base == c.base
    && if c.tossed >= 5 then c'.tossed == 0 && c'.obs == []
       else
         && c'.tossed == c.tossed + 1
         && c'.start == (if e.time < c.start then e.time else c.start)
         && c'.end == (if e.time > c.end then e.time else c.end)
         && forall p :: Count(c'.obs, p) == if e.time - c.base - p.0 <= 1800.0 then Count(c.obs, p) else 0
  }

  /** With 24 observations or fewer an epoch is taken in. */
  lemma FewAreJoined(c: Clock, e: Epoch)
    requires |c.obs| <= 24
    ensures Joined(c, e, Step(c, e))
  {
    hide Step, InsertAll, Recent, Count;
    StepOfFew(c, e);
    forall p
      ensures var c' := Step(c, e);
              var dt := e.time - c'.base;
              Count(c'.obs, p)
              == if dt - p.0 <= 1800.0 then Count(c.obs, p) + (if p.0 == dt then Count(e.used, p.1) else 0) else 0
    {
      CountsAfter(c.obs, e.time - Step(c, e).base, e.used, p);
    }
  }

  lemma StepOfFew(c: Clock, e: Epoch)
    requires |c.obs| <= 24
    ensures var c' := Step(c, e);
            && c'.tossed == 0 && c'.base == (if c.obs == [] then e.time else c.base)
            && c'.start == (if c.obs == [] || e.time < c.start then e.time else c.start)
            && c'.end == (if c.obs == [] || e.time > c.end then e.time else c.end)
            && c'.obs == Recent(InsertAll(c.obs, e.time - c'.base, e.used), e.time - c'.base)
  {
    hide InsertAll, Recent, Mean, Estimate;
  }

  /**
   With more than 24, an epoch is taken in if its mean is within 20 of their best line, and otherwise
   adds nothing; the sixth such epoch in a row clears the store.
   */
  lemma LineDecides(c: Clock, e: Epoch, a: real, b: real)
    requires |c.obs| > 24 && BestLine(c.obs, c.base, a, b)
    ensures var near := Abs(Mean(e.used) - (a + Times(b, e.time))) <= 20.0;
            if near then Joined(c, e, Step(c, e)) else TurnedDown(c, e, Step(c, e))
  {
    hide *;
    EstimateOnLine(c.obs, c.base, a, b, e.time);
    if Abs(Mean(e.used) - (a + Times(b, e.time))) <= 20.0 {
      NearJoins(c, e);
    } else {
      FarIsTurnedDown(c, e);
    }
  }

  /** And if they are all of one time, if it is within 20 of their mean. */
  lemma OneTimeDecides(c: Clock, e: Epoch)
    requires |c.obs| > 24 && forall p <- c.obs, q <- c.obs :: p.0 == q.0
    ensures var near := Abs(Mean(e.used) - SumY(c.obs) / |c.obs| as real) <= 20.0;
            if near then Joined(c, e, Step(c, e)) else TurnedDown(c, e, Step(c, e))
  {
    hide *;
    EstimateOfOneTime(c.obs, e.time - c.base);
    if Abs(Mean(e.used) - SumY(c.obs) / |c.obs| as real) <= 20.0 {
      NearJoins(c, e);
    } else {
      FarIsTurnedDown(c, e);
    }
  }

  lemma NearJoins(c: Clock, e: Epoch)
    requires |c.obs| > 24 && Abs(Mean(e.used) - Estimate(c.obs, e.time - c.base)) <= 20.0
    ensures Joined(c, e, Step(c, e))
  {
    hide Mean, Estimate, Abs, Step, InsertAll, Recent, Count;
    StepOfMany(c, e);
    forall p
      ensures var dt := e.time - c.base;
              Count(Step(c, e).obs, p)
              == if dt - p.0 <= 1800.0 then Count(c.obs, p) + (if p.0 == dt then Count(e.used, p.1) else 0) else 0
    {
      CountsAfter(c.obs, e.time - c.base, e.used, p);
    }
  }

  lemma FarIsTurnedDown(c: Clock, e: Epoch)
    requires |c.obs| > 24 && Abs(Mean(e.used) - Estimate(c.obs, e.time - c.base)) > 20.0
    ensures TurnedDown(c, e, Step(c, e))
  {
    hide Mean, Estimate, Abs, Step, InsertAll, Recent, Count;
    StepOfMany(c, e);
    forall p
      ensures Count(Recent(c.obs, e.time - c.base), p)
           == if e.time - c.base - p.0 <= 1800.0 then Count(c.obs, p) else 0
    {
      CountsAfter(c.obs, e.time - c.base, e.used, p);
    }
  }

  lemma DecidedByLines(c: Clock, e: Epoch)
    ensures |c.obs| <= 24 ==> Joined(c, e, Step(c, e))
    ensures |c.obs| > 24 ==>
              forall a, b | BestLine(c.obs, c.base, a, b) ::
                var near := Abs(Mean(e.used) - (a + Times(b, e.time))) <= 20.0;
                if near then Joined(c, e, Step(c, e)) else TurnedDown(c, e, Step(c, e))
  {
    hide *;
    if |c.obs| <= 24 {
      FewAreJoined(c, e);
    } else {
      forall a, b | BestLine(c.obs, c.base, a, b)
        ensures var near := Abs(Mean(e.used) - (a + Times(b, e.time))) <= 20.0;
                if near then Joined(c, e, Step(c, e)) else TurnedDown(c, e, Step(c, e))
      {
        LineDecides(c, e, a, b);
      }
    }
  }

  lemma StepOfMany(c: Clock, e: Epoch)
    requires |c.obs| > 24
    ensures var c', dt, near := Step(c, e), e.time - c.base,
                                Abs(Mean(e.used) - Estimate(c.obs, e.time - c.base)) <= 20.0;
            && c'.base == c.base
            && c'.tossed == (if near || c.tossed >= 5 then 0 else c.tossed + 1)
            && (near || c.tossed < 5 ==>
                  && c'.start == (if e.time < c.start then e.time else c.start)
                  && c'.end == (if e.time > c.end then e.time else c.end))
            && (near ==> c'.obs == Recent(InsertAll(c.obs, dt, e.used), dt))
            && (!near && c.tossed < 5 ==> c'.obs == Recent(c.obs, dt))
            && (!near && c.tossed >= 5 ==> c'.obs == [])
  {
    NothingRecent(e.time - c.base);
    hide InsertAll, Recent, Mean, Estimate;
  }

  lemma NothingRecent(dt: real)
    ensures Recent([], dt) == []
  {
  }

  // ----- the class

  class LinearClock {
    const model: ClockModel
    const regression: TwoSampleStatistics
    var startTime: real
    var endTime: real
    var baseTime: real
    var tossCount: nat
    var clockObs: seq<Observation>
    var prnStatus: map<real, map<SatID, SvStatus>>

    /** The running sums are those of the stored observations. */
    ghost predicate Agrees(obs: seq<Observation>)
      reads regression, regression.SX, regression.SY
    {
      && regression.Valid() && regression.n == |obs|
      && regression.SX.Total() == SumX(obs) && regression.SX.TotalSquares() == SumXX(obs)
      && regression.SY.Total() == SumY(obs) && regression.TotalProducts() == SumXY(obs)
      && (obs != [] && !regression.SX.setScale ==> forall o <- obs :: o.0 == 0.0)
      && (obs != [] && !regression.SY.setScale ==> forall o <- obs :: o.1 == 0.0)
    }

    ghost predicate Valid()
      reads this, regression, regression.SX, regression.SY
    {
      Agrees(clockObs) && InOrder(clockObs)
    }

    function State(): Clock
      reads this
    {
      Clock(clockObs, startTime, endTime, baseTime, tossCount)
    }

    constructor (sigma: real, elmask: real, modes: map<SatID, SvMode>, base: real)
      ensures Valid() && fresh(model) && fresh(regression) && fresh(regression.SX) && fresh(regression.SY)
      ensures State() == Clock([], END_OF_TIME, BEGINNING_OF_TIME, base, 0) && prnStatus == map[]
      ensures model.CurrentMasks() == Masks(modes, elmask, false) && model.sigmam == sigma
    {
      model := new ClockModel(sigma, elmask, modes);
      regression := new TwoSampleStatistics();
      startTime, endTime, baseTime := END_OF_TIME, BEGINNING_OF_TIME, base;
      tossCount, clockObs, prnStatus := 0, [], map[];
    }

    method Reset()
      requires Valid()
      modifies this, regression, regression.SX, regression.SY
      ensures Valid() && prnStatus == map[]
      ensures State() == Clock([], END_OF_TIME, BEGINNING_OF_TIME, old(baseTime), 0)
    {
      startTime, endTime, clockObs, prnStatus := END_OF_TIME, BEGINNING_OF_TIME, [], map[];
      regression.Reset();
      tossCount := 0;
    }

    /** The line from the running sums. */
    method LineAt(dt: real) returns (r: real)
      requires Valid()
      ensures r == Estimate(clockObs, dt)
    {
      regression.SlopeIsLeastSquares();
      hide LineSlope, SumX, SumY, SumXX, SumXY;
      r := Times(regression.Slope(), dt) + regression.Intercept();
    }

    /** The clock's offset at time t, or 0 when t is not covered or the line is not determined. */
    method GetOffset(t: real) returns (r: real)
      requires Valid()
      ensures r == if startTime <= t <= endTime && |clockObs| > 1 then Estimate(clockObs, t - baseTime) else 0.0
      ensures startTime <= t <= endTime ==> forall a, b | BestLine(clockObs, baseTime, a, b) :: r == a + Times(b, t)
    {
      hide Estimate;
      if t >= startTime && t <= endTime && regression.n > 1 {
        r := LineAt(t - baseTime);
      } else {
        r := 0.0;
      }
      hide Valid;
      forall a, b | startTime <= t <= endTime && BestLine(clockObs, baseTime, a, b) ensures r == a + Times(b, t) {
        EstimateOnLine(clockObs, baseTime, a, b, t);
        LineHasTwo(clockObs, baseTime, a, b);
      }
    }

    method AddObservation(dt: real, ord: real)
      requires Valid()
      modifies this`clockObs, regression, regression.SX, regression.SY
      ensures Valid() && clockObs == Insert(old(clockObs), (dt, ord))
    {
      InsertSums(clockObs, (dt, ord));
      InsertInOrder(clockObs, (dt, ord));
      InsertMembers(clockObs, (dt, ord));
      hide SumX, SumY, SumXX, SumXY, Square, Times, Insert, InOrder;
      regression.Add(dt, ord);
      clockObs := Insert(clockObs, (dt, ord));
    }

    method RemoveFirst()
      requires Valid() && clockObs != []
      modifies this`clockObs, regression, regression.SX, regression.SY
      ensures Valid() && clockObs == old(clockObs)[1..]
    {
      var o := clockObs[0];
      hide Square, Times;
      clockObs := clockObs[1..];
      regression.Subtract(o.0, o.1);
    }

    /** Drop the observations that are too old. */
    method Evict(dt: real)
      requires Valid()
      modifies this`clockObs, regression, regression.SX, regression.SY
      ensures Valid() && clockObs == Recent(old(clockObs), dt)
    {
      while clockObs != []
        invariant Valid() && Recent(clockObs, dt) == Recent(old(clockObs), dt)
        decreases |clockObs|
      {
        if dt - clockObs[0].0 > WINDOW {
          RemoveFirst();
        } else {
          break;
        }
      }
      AllRecent(clockObs, dt);
    }

    /** Add the observations that the epoch's clock uses. */
    method AddUsedObservations(ords: OrdMap, dt: real, status: map<SatID, SvStatus>)
      requires Valid() && forall o <- ords :: o.svid in status
      modifies this`clockObs, regression, regression.SX, regression.SY
      ensures Valid() && clockObs == InsertAll(old(clockObs), dt, UsedValues(ords, status))
    {
      hide Insert;
      for i := 0 to |ords|
        invariant Valid() && clockObs == InsertAll(old(clockObs), dt, UsedValues(ords[..i], status))
      {
        var o := ords[i];
        ghost var used := UsedValues(ords[..i], status);
        assert ords[..i + 1] == ords[..i] + [o];
        UsedStep(ords[..i], o, status);
        if status[o.svid] == Used {
          assert (used + [o.ord])[..|used|] == used;
          AddObservation(dt, o.ord);
        }
      }
      assert ords[..|ords|] == ords;
    }

    /**
     Take in the observations of an epoch.  Without an elevation for every observation there is an
     exception, and the clock stays as it is.
     */
    method AddEpoch(t: real, ords: OrdMap) returns (ok: bool)
      requires Valid() && DistinctSats(ords)
      modifies this, model`status, model`modes, regression, regression.SX, regression.SY
      ensures Valid()
      ensures ok <==> forall o <- ords :: o.elevation.Some?
      ensures !ok ==> State() == old(State()) && prnStatus == old(prnStatus)
      ensures ok ==>
                && Settled(ords, old(model.CurrentMasks()), model.sigmam, model.status)
                && model.status.Keys == Sats(ords)
                && var e := Epoch(t, UsedValues(ords, model.status));
                   && State() == Step(old(State()), e)
                   && prnStatus == if Resets(old(State()), e) then map[] else old(prnStatus)[t := model.status]
      ensures ok ==>
                var e := Epoch(t, UsedValues(ords, model.status));
                && (|old(clockObs)| <= 24 ==> Joined(old(State()), e, State()))
                && (|old(clockObs)| > 24 ==>
                      forall a, b | BestLine(old(clockObs), old(baseTime), a, b) ::
                        var near := Abs(Mean(e.used) - (a + Times(b, t))) <= 20.0;
                        if near then Joined(old(State()), e, State()) else TurnedDown(old(State()), e, State()))
    {
      hide Settled, Sats, UsedValues, Mean, Step, Joined, TurnedDown, BestLine, Resets, Agrees, InOrder, Rejected;
      var average;
      ok, average := EpochClock(ords);
      if ok {
        prnStatus := prnStatus[t := model.status];
        TakeEpoch(t, ords, average, model.status, UsedValues(ords, model.status));
      }
    }

    /** The clock of the epoch alone, which sets the statuses. */
    method EpochClock(ords: OrdMap) returns (ok: bool, average: real)
      requires DistinctSats(ords)
      modifies model`status, model`modes
      ensures ok <==> forall o <- ords :: o.elevation.Some?
      ensures ok ==>
                && Settled(ords, old(model.CurrentMasks()), model.sigmam, model.status)
                && model.status.Keys == Sats(ords) && (forall o <- ords :: o.svid in model.status)
                && average == Mean(UsedValues(ords, model.status))
    {
      var stat;
      ok, stat := model.SimpleOrdClock(ords);
      average := 0.0;
      if ok {
        assert forall o <- ords :: o.svid in Sats(ords);
        stat.AccessorsAgree(UsedValues(ords, model.status));
        average := stat.Average();
      }
      hide *;
    }

    /** The covered times are extended by t. */
    method Extend(t: real)
      requires Valid()
      modifies this
      ensures Valid() && State() == Extended(old(State()), t) && prnStatus == old(prnStatus)
    {
      if regression.n == 0 {
        startTime, endTime, baseTime := t, t, t;
        tossCount := 0;
      }
      if t < startTime {
        startTime := t;
      }
      if t > endTime {
        endTime := t;
      }
    }

    /** What the epoch's clock is compared with. */
    method Expected(deltaT: real, average: real) returns (mean: real)
      requires Valid()
      ensures mean == if |clockObs| > 24 then Estimate(clockObs, deltaT) else average
    {
      if regression.n > 24 {
        mean := LineAt(deltaT);
      } else {
        mean := average;
      }
    }

    /** Reject the epoch, with patience for a few in a row. */
    method Toss()
      requires Valid()
      modifies this, regression, regression.SX, regression.SY
      ensures Valid()
      ensures State() == if old(tossCount) >= PATIENCE then Clock([], END_OF_TIME, BEGINNING_OF_TIME, old(baseTime), 0)
                         else old(State()).(tossed := old(tossCount) + 1)
      ensures prnStatus == if old(tossCount) >= PATIENCE then map[] else old(prnStatus)
    {
      tossCount := tossCount + 1;
      if tossCount > PATIENCE {
        Reset();
      }
    }

    method TakeEpoch(t: real, ords: OrdMap, average: real, status: map<SatID, SvStatus>, ghost used: seq<real>)
      requires Valid() && forall o <- ords :: o.svid in status
      requires used == UsedValues(ords, status) && average == Mean(used)
      modifies this, regression, regression.SX, regression.SY
      ensures Valid() && State() == Step(old(State()), Epoch(t, used))
      ensures var e := Epoch(t, used);
              && (|old(clockObs)| <= 24 ==> Joined(old(State()), e, State()))
              && (|old(clockObs)| > 24 ==>
                    forall a, b | BestLine(old(clockObs), old(baseTime), a, b) ::
                      var near := Abs(Mean(e.used) - (a + Times(b, t))) <= 20.0;
                      if near then Joined(old(State()), e, State()) else TurnedDown(old(State()), e, State()))
      ensures prnStatus == if Resets(old(State()), Epoch(t, used)) then map[] else old(prnStatus)
    {
      hide UsedValues, Mean, Insert, InsertAll, Recent, Estimate, Agrees, InOrder;
      Extend(t);
      var deltaT := t - baseTime;
      var mean := Expected(deltaT, average);
      if Abs(average - mean) > TOLERANCE {
        Toss();
      } else {
        tossCount := 0;
        AddUsedObservations(ords, deltaT, status);
      }
      assert State() == Taken(old(State()), Epoch(t, used));
      Evict(deltaT);
      DecidedByLines(old(State()), Epoch(t, used));
      hide Rejected, Joined, TurnedDown, BestLine, Abs, Times, Resets;
    }
  }

  // ----- runs

  function Run(c: Clock, es: seq<Epoch>): Clock {
    if es == [] then c else Step(Run(c, es[..|es| - 1]), es[|es| - 1])
  }

  /** How many epochs at the end were rejected in a row. */
  function RejectedInRow(c: Clock, es: seq<Epoch>): nat {
    if es == [] then 0
    else
      var rest, e := es[..|es| - 1], es[|es| - 1];
      if Rejected(Run(c, rest), e) then RejectedInRow(c, rest) + 1 else 0
  }

  /** What holds between epochs. */
  ghost predicate Sound(c: Clock) {
    && c.tossed <= PATIENCE
    && InOrder(c.obs)
    && forall o <- c.obs :: c.start <= c.base + o.0 <= c.end
  }

  lemma {:induction false} InsertAllMembers(obs: seq<Observation>, dt: real, used: seq<real>)
    ensures forall o :: o in InsertAll(obs, dt, used) <==> o in obs || (o.0 == dt && o.1 in used)
    ensures InOrder(obs) ==> InOrder(InsertAll(obs, dt, used))
  {
    if used != [] {
      var rest, x := used[..|used| - 1], used[|used| - 1];
      InsertAllMembers(obs, dt, rest);
      InsertMembers(InsertAll(obs, dt, rest), (dt, x));
      if InOrder(obs) {
        InsertInOrder(InsertAll(obs, dt, rest), (dt, x));
      }
      assert used == rest + [x];
    }
  }

  /**
   Every epoch keeps the store in order, inside the times covered, and no older than the window;
   the base time only changes while the store is empty.
   */
  lemma StepKeepsSound(c: Clock, e: Epoch)
    requires Sound(c)
    ensures var c' := Step(c, e);
            && Sound(c')
            && (c.obs != [] ==> c'.base == c.base)
            && forall o <- c'.obs :: e.time - (c'.base + o.0) <= WINDOW
  {
    hide Insert, InsertAll, Recent, Rejected;
    var b := Extended(c, e.time);
    InsertAllMembers(b.obs, e.time - b.base, e.used);
    RecentInOrder(Taken(c, e).obs, e.time - b.base);
  }

  /**
   The sixth epoch that is rejected in a row, and no other, resets the clock; so there are never
   seven.
   */
  lemma {:induction false} ResetOnSixthRejection(c: Clock, es: seq<Epoch>)
    requires c.tossed == 0
    ensures var k := RejectedInRow(c, es);
            && k <= 6
            && Run(c, es).tossed == (if k == 6 then 0 else k)
            && (k == 6 ==> Run(c, es).obs == [])
            && (es != [] ==> (Resets(Run(c, es[..|es| - 1]), es[|es| - 1]) <==> k == 6))
  {
    if es != [] {
      hide Estimate, Mean, InsertAll, Recent;
      ResetOnSixthRejection(c, es[..|es| - 1]);
      assert Recent([], es[|es| - 1].time - Extended(Run(c, es[..|es| - 1]), es[|es| - 1].time).base) == [];
    }
  }

  // ----- what the store holds

  /** A range deviation and its time, whatever the base time. */
  type Sample = (real, real)

  /** How often an epoch has the sample. */
  function InEpoch(e: Epoch, s: Sample): nat {
    if s.0 == e.time then multiset(e.used)[s.1] else 0
  }

  /** How often the store has it. */
  function InStore(c: Clock, s: Sample): nat {
    multiset(c.obs)[(s.0 - c.base, s.1)]
  }

  /** Epoch i of the run was taken in, and since then nothing dropped it. */
  predicate Held(c: Clock, es: seq<Epoch>, i: nat)
    requires i < |es|
  {
    && !Rejected(Run(c, es[..i]), es[i])
    && forall j | i <= j < |es| :: !Resets(Run(c, es[..j]), es[j]) && es[j].time - es[i].time <= WINDOW
  }

  /** How often the held epochs among the first k have the sample. */
  function InHeld(c: Clock, es: seq<Epoch>, k: nat, s: Sample): nat
    requires k <= |es|
  {
    if k == 0 then 0
    else InHeld(c, es, k - 1, s) + if Held(c, es, k - 1) then InEpoch(es[k - 1], s) else 0
  }

  lemma InsertCounts(obs: seq<Observation>, q: Observation, p: Observation)
    ensures multiset(Insert(obs, q))[p] == multiset(obs)[p] + if p == q then 1 else 0
  {
    InsertContents(obs, q);
  }

  lemma {:induction false} InsertAllCounts(obs: seq<Observation>, dt: real, used: seq<real>, p: Observation)
    ensures multiset(InsertAll(obs, dt, used))[p] == multiset(obs)[p] + if p.0 == dt then multiset(used)[p.1] else 0
  {
    if used != [] {
      var rest, x := used[..|used| - 1], used[|used| - 1];
      assert InsertAll(obs, dt, used) == Insert(InsertAll(obs, dt, rest), (dt, x));
      InsertAllCounts(obs, dt, rest, p);
      hide *;
      InsertCounts(InsertAll(obs, dt, rest), (dt, x), p);
      CountLast(used, p.1);
    }
  }

  lemma CountLast<T>(s: seq<T>, y: T)
    requires s != []
    ensures multiset(s)[y] == multiset(s[..|s| - 1])[y] + if s[|s| - 1] == y then 1 else 0
  {
    assert s == s[..|s| - 1] + [s[|s| - 1]];
  }

  lemma {:induction false} RecentCounts(obs: seq<Observation>, dt: real, p: Observation)
    ensures multiset(Recent(obs, dt))[p] == if dt - p.0 <= WINDOW then multiset(obs)[p] else 0
  {
    if obs != [] {
      RecentCounts(obs[1..], dt, p);
      assert obs == [obs[0]] + obs[1..];
    }
  }

  /** A further epoch drops all samples or the old ones. */
  lemma HeldStep(c: Clock, es: seq<Epoch>, e: Epoch, i: nat)
    requires i < |es|
    ensures Held(c, es + [e], i) <==> Held(c, es, i) && !Resets(Run(c, es), e) && e.time - es[i].time <= WINDOW
  {
    hide Run, Rejected, Resets;
    var es' := es + [e];
    assert forall j | 0 <= j < |es| :: es'[..j] == es[..j] && es'[j] == es[j];
    assert es'[..|es|] == es && es'[|es|] == e;
  }

  lemma InHeldCons(c: Clock, es: seq<Epoch>, k: nat, s: Sample)
    requires 0 < k <= |es|
    ensures InHeld(c, es, k, s) == InHeld(c, es, k - 1, s) + if Held(c, es, k - 1) then InEpoch(es[k - 1], s) else 0
  {
  }

  lemma {:induction false} InHeldStep(c: Clock, es: seq<Epoch>, e: Epoch, k: nat, s: Sample)
    requires k <= |es|
    ensures InHeld(c, es + [e], k, s)
         == if !Resets(Run(c, es), e) && e.time - s.0 <= WINDOW then InHeld(c, es, k, s) else 0
  {
    hide *;
    NoneHeld(c, es, s);
    NoneHeld(c, es + [e], s);
    if k > 0 {
      var es', last := es + [e], es[k - 1];
      assert es'[k - 1] == last;
      InHeldStep(c, es, e, k - 1, s);
      HeldStep(c, es, e, k - 1);
      InHeldCons(c, es, k, s);
      InHeldCons(c, es', k, s);
      InEpochAtItsTime(last, s);
    }
  }

  lemma NoneHeld(c: Clock, es: seq<Epoch>, s: Sample)
    ensures InHeld(c, es, 0, s) == 0
  {
  }

  lemma InEpochAtItsTime(e: Epoch, s: Sample)
    ensures InEpoch(e, s) > 0 ==> e.time == s.0
  {
  }

  /**
   From an empty store, a run leaves in the store exactly the samples of the epochs that were not
   rejected, were not followed by a reset, and are not older than the window for any later epoch.
   */
  lemma {:induction false} StoreHoldsWindow(c: Clock, es: seq<Epoch>, s: Sample)
    requires c.obs == []
    ensures InStore(Run(c, es), s) == InHeld(c, es, |es|, s)
  {
    if es != [] {
      hide Run, Step, Rejected, Resets, InStore, InHeld, InEpoch;
      var rest, e := es[..|es| - 1], es[|es| - 1];
      assert rest + [e] == es;
      StoreHoldsWindow(c, rest, s);
      RunStep(c, rest, e);
      StoreStep(Run(c, rest), e, s);
      InHeldLast(c, rest, e, s);
    } else {
      assert Run(c, es) == c;
    }
  }

  lemma RunStep(c: Clock, es: seq<Epoch>, e: Epoch)
    ensures Run(c, es + [e]) == Step(Run(c, es), e)
  {
    assert (es + [e])[..|es|] == es;
  }

  lemma InHeldLast(c: Clock, es: seq<Epoch>, e: Epoch, s: Sample)
    ensures InHeld(c, es + [e], |es| + 1, s)
         == if Resets(Run(c, es), e) || e.time - s.0 > WINDOW then 0
            else InHeld(c, es, |es|, s) + if Rejected(Run(c, es), e) then 0 else InEpoch(e, s)
  {
    InHeldStep(c, es, e, |es|, s);
    HeldLast(c, es, e);
    hide Run, Held, Rejected;
    assert (es + [e])[|es|] == e;
  }

  lemma HeldLast(c: Clock, es: seq<Epoch>, e: Epoch)
    ensures Held(c, es + [e], |es|) <==> !Rejected(Run(c, es), e)
  {
    hide Run, Rejected;
    assert (es + [e])[..|es|] == es;
  }

  lemma StoreStep(c: Clock, e: Epoch, s: Sample)
    ensures InStore(Step(c, e), s)
         == if Resets(c, e) || e.time - s.0 > WINDOW then 0
            else InStore(c, s) + if Rejected(c, e) then 0 else InEpoch(e, s)
  {
    hide Rejected, InsertAll, Recent;
    var b := Extended(c, e.time);
    var dt, p := e.time - b.base, (s.0 - b.base, s.1);
    RecentCounts(Taken(c, e).obs, dt, p);
    InsertAllCounts(b.obs, dt, e.used, p);
  }
}
