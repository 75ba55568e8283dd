/**
 Running statistics of one and of two samples, in exact arithmetic.  The sums are kept in units of
 a scale, taken from the first non-zero sample; `Total` and its kin are the sums themselves.
 */
module Stats {

  import opened ExactArithmetic

  // ----- sums over a list of samples

  function Sum(xs: seq<real>): real {
    if xs == [] then 0.0 else Sum(xs[..|xs| - 1]) + xs[|xs| - 1]
  }

  function SumSquares(xs: seq<real>): real {
    if xs == [] then 0.0 else SumSquares(xs[..|xs| - 1]) + Square(xs[|xs| - 1])
  }

  /** The sum of the squared distances from `m`. */
  function Spread(xs: seq<real>, m: real): real {
    if xs == [] then 0.0 else Spread(xs[..|xs| - 1], m) + Square(xs[|xs| - 1] - m)
  }

  function Mean(xs: seq<real>): real {
    if xs == [] then 0.0 else Sum(xs) / |xs| as real
  }

  /** The variance with divisor n - 1. */
  function Variance(xs: seq<real>): real {
    if |xs| < 2 then 0.0 else Spread(xs, Mean(xs)) / (|xs| - 1) as real
  }

  lemma {:induction false} SpreadExpanded(xs: seq<real>, m: real)
    ensures Spread(xs, m) == SumSquares(xs) - Times(2.0, Times(m, Sum(xs))) + Times(|xs| as real, Square(m))
    ensures Spread(xs, m) >= 0.0
  {
    if xs == [] {
      assert Times(2.0, Times(m, 0.0)) == 0.0 && Times(0.0, Square(m)) == 0.0;
    } else {
      hide Times;
      var rest, x := xs[..|xs| - 1], xs[|xs| - 1];
      SpreadExpanded(rest, m);
      Signs(x - m, x);
      SquareOfDifference(x, m);
      Distribute(m, Sum(rest), x);
      Distribute(2.0, Times(m, Sum(rest)), Times(m, x));
      Distribute(Square(m), |rest| as real, 1.0);
      assert Times(1.0, Square(m)) == Square(m) by {
        TimesOne(Square(m));
      }
    }
  }

  lemma TimesOne(x: real)
    ensures Times(1.0, x) == x
  {
  }

  lemma SquareOfDifference(x: real, m: real)
    ensures Square(x - m) == Square(x) - Times(2.0, Times(m, x)) + Square(m)
  {
  }

  /** The distances from the mean add up to what the running sums give. */
  lemma SpreadAtMean(xs: seq<real>)
    requires xs != []
    ensures Spread(xs, Mean(xs)) == SumSquares(xs) - Square(Sum(xs)) / |xs| as real
  {
    var n, s, m := |xs| as real, Sum(xs), Mean(xs);
    SpreadExpanded(xs, m);
    Quotient(s, n, m);
    hide Times;
    Associate(n, m, m);
    Associate(m, m, n);
    Associate(m, s, n);
    Quotient(Square(s), n, Times(m, s));
    Associate(s, m, n);
    TimesTwo(Times(m, s));
  }

  lemma TimesTwo(x: real)
    ensures Times(2.0, x) == x + x
  {
  }

  // ----- one sample

  /** A sum of products of samples, each in units of its scale, out of these units. */
  function Rescaled(sx: real, sy: real, sum: real): real {
    Times(sx, Times(sy, sum))
  }

  class Statistics {
    var n: nat
    var setScale: bool
    var scale: real
    var sum: real
    var sum2: real

    ghost predicate Valid()
      reads this
    {
      scale > 0.0 && (n > 0 && !setScale ==> sum == 0.0 && sum2 == 0.0)
    }

    /** The sum of the samples. */
    function Total(): real
      reads this
    {
      if n == 0 then 0.0 else Times(scale, sum)
    }

    /** The sum of their squares. */
    function TotalSquares(): real
      reads this
    {
      if n == 0 then 0.0 else Rescaled(scale, scale, sum2)
    }

    constructor ()
      ensures Valid() && n == 0
    {
      n, setScale, scale, sum, sum2 := 0, false, 1.0, 0.0, 0.0;
    }

    method Reset()
      modifies this
      ensures Valid() && n == 0
    {
      n, setScale, scale, sum, sum2 := 0, false, 1.0, 0.0, 0.0;
    }

    method Add(x: real)
      requires Valid()
      modifies this
      ensures Valid() && n == old(n) + 1
      ensures Total() == old(Total()) + x
      ensures TotalSquares() == old(TotalSquares()) + Square(x)
      ensures setScale == ((old(n) > 0 && old(setScale)) || x != 0.0)
      ensures old(n) > 0 && old(setScale) ==> scale == old(scale)
    {
      ScaledNothing(scale, scale);
      if n == 0 {
        sum, sum2, scale, setScale := 0.0, 0.0, 1.0, false;
      }
      if !setScale && x != 0.0 {
        scale, setScale := Abs(x), true;
      }
      hide Times, Rescaled, Unscaled;
      ScaledSample(x, scale, sum);
      ScaledProduct(x, x, scale, scale, sum2);
      ScaledNothing(scale, scale);
      sum := sum + x / scale;
      sum2 := sum2 + Unscaled(x, x, scale, scale);
      n := n + 1;
    }

    /** Remove a sample that was added before. */
    method Subtract(x: real)
      requires Valid() && (n > 0 && !setScale ==> x == 0.0)
      modifies this
      ensures Valid() && setScale == old(setScale) && scale == old(scale)
      ensures n == if old(n) == 0 then 0 else old(n) - 1
      ensures n > 0 ==> Total() == old(Total()) - x && TotalSquares() == old(TotalSquares()) - Square(x)
    {
      if n < 1 {
        return;
      }
      if n == 1 {
        n := 0;
        return;
      }
      hide Times, Rescaled, Unscaled;
      ScaledSample(x, scale, sum);
      ScaledProduct(x, x, scale, scale, sum2);
      sum := sum - x / scale;
      sum2 := sum2 - Unscaled(x, x, scale, scale);
      n := n - 1;
    }

    function Average(): real
      reads this
    {
      if n > 0 then Times(scale, sum) / n as real else 0.0
    }

    function SampleVariance(): real
      requires Valid()
      reads this
    {
      if n > 1 then Rescaled(scale, scale, sum2 - Square(sum) / n as real) / (n - 1) as real else 0.0
    }

    /** The accessors agree with the definitions, for samples with these sums. */
    lemma AccessorsAgree(xs: seq<real>)
      requires Valid() && n == |xs| && Total() == Sum(xs) && TotalSquares() == SumSquares(xs)
      ensures Average() == Mean(xs)
      ensures SampleVariance() == Variance(xs)
    {
      if n > 1 {
        SpreadAtMean(xs);
        hide Times;
        ScaledQuotient(scale, scale, sum, sum, n as real);
        RescaledMinus(scale, scale, sum2, Square(sum) / n as real);
      }
    }
  }

  /** A product of samples, in units of their scales. */
  function Unscaled(x: real, y: real, sx: real, sy: real): real
    requires sx > 0.0 && sy > 0.0
  {
    Times(x / sx, y / sy)
  }

  lemma ScaledSample(x: real, scale: real, sum: real)
    requires scale > 0.0
    ensures Times(scale, sum + x / scale) == Times(scale, sum) + x
    ensures Times(scale, sum - x / scale) == Times(scale, sum) - x
  {
    Quotient(x, scale, x / scale);
    hide Times;
    Associate(scale, x / scale, x);
    Distribute(scale, sum, x / scale);
  }

  lemma ScaledProduct(x: real, y: real, sx: real, sy: real, sum: real)
    requires sx > 0.0 && sy > 0.0
    ensures Rescaled(sx, sy, sum + Unscaled(x, y, sx, sy)) == Rescaled(sx, sy, sum) + Times(x, y)
    ensures Rescaled(sx, sy, sum - Unscaled(x, y, sx, sy)) == Rescaled(sx, sy, sum) - Times(x, y)
  {
    var u, v := x / sx, y / sy;
    Quotient(x, sx, u);
    Quotient(y, sy, v);
    hide Times;
    RescaledMinus(sx, sy, sum, Times(u, v));
    Associate(sy, u, v);
    Associate(sx, u, Times(sy, v));
    Associate(sx, u, u);
    Associate(sy, v, v);
  }

  lemma RescaledMinus(sx: real, sy: real, a: real, b: real)
    ensures Rescaled(sx, sy, a + b) == Rescaled(sx, sy, a) + Rescaled(sx, sy, b)
    ensures Rescaled(sx, sy, a - b) == Rescaled(sx, sy, a) - Rescaled(sx, sy, b)
  {
    hide Times;
    Distribute(sy, a, b);
    Distribute(sx, Times(sy, a), Times(sy, b));
  }

  lemma ScaledNothing(sx: real, sy: real)
    ensures Times(sx, 0.0) == 0.0 && Rescaled(sx, sy, 0.0) == 0.0
  {
  }

  /** A product of sums over n, in units of the scales or not. */
  lemma ScaledQuotient(sx: real, sy: real, x: real, y: real, n: real)
    requires n != 0.0
    ensures Rescaled(sx, sy, Times(x, y) / n) == Times(Times(sx, x), Times(sy, y)) / n
  {
    var p := Times(x, y) / n;
    Quotient(Times(x, y), n, p);
    hide Times;
    var xy := Times(x, y);
    Associate(Times(sx, Times(sy, p)), n, n);
    Associate(n, sx, Times(sy, p));
    Associate(n, sy, p);
    Associate(n, p, p);
    Associate(sy, x, y);
    Associate(sx, x, Times(sy, y));
    Quotient(Times(Times(sx, x), Times(sy, y)), n, Rescaled(sx, sy, p));
  }

  // ----- two samples

  function SumX(ps: seq<(real, real)>): real {
    if ps == [] then 0.0 else SumX(ps[1..]) + ps[0].0
  }

  function SumY(ps: seq<(real, real)>): real {
    if ps == [] then 0.0 else SumY(ps[1..]) + ps[0].1
  }

  function SumXX(ps: seq<(real, real)>): real {
    if ps == [] then 0.0 else SumXX(ps[1..]) + Square(ps[0].0)
  }

  function SumYY(ps: seq<(real, real)>): real {
    if ps == [] then 0.0 else SumYY(ps[1..]) + Square(ps[0].1)
  }

  function SumXY(ps: seq<(real, real)>): real {
    if ps == [] then 0.0 else SumXY(ps[1..]) + Times(ps[0].0, ps[0].1)
  }

  /** The slope of the least-squares line through the points, or 0 when it is not determined. */
  function LineSlope(n: nat, x: real, y: real, xx: real, xy: real): real {
    if n == 0 || xx - Square(x) / n as real == 0.0 then 0.0
    else (xy - Times(x, y) / n as real) / (xx - Square(x) / n as real)
  }

  class TwoSampleStatistics {
    var n: nat
    const SX: Statistics
    const SY: Statistics
    var sumxy: real

    ghost predicate Valid()
      reads this, SX, SY
    {
      && SX != SY && SX.Valid() && SY.Valid()
      && (n == 0 ==> sumxy == 0.0)
      && SX.n == n && SY.n == n
      && (n > 0 && (!SX.setScale || !SY.setScale) ==> sumxy == 0.0)
    }

    /** The sum of the products. */
    function TotalProducts(): real
      reads this, SX, SY
    {
      if n == 0 then 0.0 else Rescaled(SX.scale, SY.scale, sumxy)
    }

    constructor ()
      ensures Valid() && n == 0 && fresh(SX) && fresh(SY)
    {
      n, sumxy := 0, 0.0;
      SX := new Statistics();
      SY := new Statistics();
    }

    method Reset()
      requires Valid()
      modifies this, SX, SY
      ensures Valid() && n == 0
    {
      n := 0;
      SX.Reset();
      SY.Reset();
      sumxy := 0.0;
    }

    method Add(x: real, y: real)
      requires Valid()
      modifies this, SX, SY
      ensures Valid() && n == old(n) + 1
      ensures SX.Total() == old(SX.Total()) + x && SX.TotalSquares() == old(SX.TotalSquares()) + Square(x)
      ensures SY.Total() == old(SY.Total()) + y && SY.TotalSquares() == old(SY.TotalSquares()) + Square(y)
      ensures TotalProducts() == old(TotalProducts()) + Times(x, y)
      ensures SX.setScale == ((old(n) > 0 && old(SX.setScale)) || x != 0.0)
      ensures SY.setScale == ((old(n) > 0 && old(SY.setScale)) || y != 0.0)
    {
      ScaledNothing(SX.scale, SY.scale);
      hide Times, Rescaled, Unscaled;
      SX.Add(x);
      SY.Add(y);
      ScaledNothing(SX.scale, SY.scale);
      ScaledProduct(x, y, SX.scale, SY.scale, sumxy);
      sumxy := sumxy + Unscaled(x, y, SX.scale, SY.scale);
      n := n + 1;
    }

    /** Remove a pair that was added before. */
    method Subtract(x: real, y: real)
      requires Valid() && (n > 0 && !SX.setScale ==> x == 0.0) && (n > 0 && !SY.setScale ==> y == 0.0)
      modifies this, SX, SY
      ensures Valid() && n == if old(n) == 0 then 0 else old(n) - 1
      ensures n > 0 ==>
                && SX.Total() == old(SX.Total()) - x && SX.TotalSquares() == old(SX.TotalSquares()) - Square(x)
                && SY.Total() == old(SY.Total()) - y && SY.TotalSquares() == old(SY.TotalSquares()) - Square(y)
                && TotalProducts() == old(TotalProducts()) - Times(x, y)
                && SX.setScale == old(SX.setScale) && SY.setScale == old(SY.setScale)
    {
      if n < 1 {
        return;
      }
      if n == 1 {
        Reset();
        return;
      }
      hide Times, Rescaled, Unscaled;
      SX.Subtract(x);
      SY.Subtract(y);
      ScaledProduct(x, y, SX.scale, SY.scale, sumxy);
      sumxy := sumxy - Unscaled(x, y, SX.scale, SY.scale);
      n := n - 1;
    }

    function Slope(): real
      requires Valid()
      reads this, SX, SY
    {
      if n > 0 then ScaledSlope(SX.scale, SY.scale, SX.sum, SY.sum, SX.sum2, sumxy, n) else 0.0
    }

    function Intercept(): real
      requires Valid()
      reads this, SX, SY
    {
      if n > 0 then SY.Average() - Times(Slope(), SX.Average()) else 0.0
    }

    /** The scales cancel: this is the slope of the least-squares line. */
    lemma SlopeIsLeastSquares()
      requires Valid()
      ensures Slope() == LineSlope(n, SX.Total(), SY.Total(), SX.TotalSquares(), TotalProducts())
    {
      if n > 0 {
        ScaledSlopeIsLineSlope(SX.scale, SY.scale, SX.sum, SY.sum, SX.sum2, sumxy, n);
        hide ScaledSlope, LineSlope, Times, Rescaled;
      }
    }
  }

  /** The slope from sums in units of the scales. */
  function ScaledSlope(sx: real, sy: real, x: real, y: real, xx: real, xy: real, n: nat): real
    requires sx > 0.0 && sy > 0.0 && n > 0
  {
    var den := xx - Square(x) / n as real;
    if den == 0.0 then 0.0 else Times(sy / sx, xy - Times(x, y) / n as real) / den
  }

  lemma ScaledSlopeIsLineSlope(sx: real, sy: real, x: real, y: real, xx: real, xy: real, n: nat)
    requires sx > 0.0 && sy > 0.0 && n > 0
    ensures LineSlope(n, Times(sx, x), Times(sy, y), Rescaled(sx, sx, xx), Rescaled(sx, sy, xy))
         == ScaledSlope(sx, sy, x, y, xx, xy, n)
  {
    hide Times;
    var m := n as real;
    var den, num := xx - Square(x) / m, xy - Times(x, y) / m;
    ScaledQuotient(sx, sx, x, x, m);
    ScaledQuotient(sx, sy, x, y, m);
    RescaledMinus(sx, sx, xx, Square(x) / m);
    RescaledMinus(sx, sy, xy, Times(x, y) / m);
    Signs(sx, Times(sx, den));
    Signs(sx, den);
    if den != 0.0 {
      CancelScale(sx, sy, num, den);
    }
  }

  lemma CancelScale(sx: real, sy: real, num: real, den: real)
    requires sx > 0.0 && den != 0.0
    ensures Rescaled(sx, sx, den) != 0.0
    ensures Rescaled(sx, sy, num) / Rescaled(sx, sx, den) == Times(sy / sx, num) / den
  {
    hide Times;
    var r := sy / sx;
    var q := Times(r, num) / den;
    Signs(sx, Times(sx, den));
    Signs(sx, den);
    Quotient(sy, sx, r);
    Quotient(Times(r, num), den, q);
    Associate(q, sx, Times(sx, den));
    Associate(q, sx, den);
    Associate(sx, r, num);
    Associate(r, sx, sx);
    Quotient(Rescaled(sx, sy, num), Rescaled(sx, sx, den), q);
  }

  // ----- the best line

  function Intercept(n: nat, x: real, y: real, slope: real): real {
    if n == 0 then 0.0 else y / n as real - Times(slope, x / n as real)
  }

  /** The distance of a point from the line, in the direction of y. */
  function Distance(p: (real, real), m: real, b: real): real {
    p.1 - (Times(m, p.0) + b)
  }

  /** The sum of the squared distances. */
  function Residuals(ps: seq<(real, real)>, m: real, b: real): real {
    if ps == [] then 0.0 else Residuals(ps[1..], m, b) + Square(Distance(ps[0], m, b))
  }

  function SumDistances(ps: seq<(real, real)>, m: real, b: real): real {
    if ps == [] then 0.0 else SumDistances(ps[1..], m, b) + Distance(ps[0], m, b)
  }

  function SumMoments(ps: seq<(real, real)>, m: real, b: real): real {
    if ps == [] then 0.0 else SumMoments(ps[1..], m, b) + Times(Distance(ps[0], m, b), ps[0].0)
  }

  lemma {:induction false} SumDistancesExpanded(ps: seq<(real, real)>, m: real, b: real)
    ensures SumDistances(ps, m, b) == SumY(ps) - Times(m, SumX(ps)) - Times(|ps| as real, b)
    ensures SumMoments(ps, m, b) == SumXY(ps) - Times(m, SumXX(ps)) - Times(b, SumX(ps))
  {
    if ps == [] {
      assert Times(m, 0.0) == 0.0 && Times(0.0, b) == 0.0 && Times(b, 0.0) == 0.0;
    } else {
      var rest, p := ps[1..], ps[0];
      SumDistancesExpanded(rest, m, b);
      MomentOfDistance(p.0, p.1, m, b);
      hide Times;
      Distribute(m, SumX(rest), p.0);
      Distribute(m, SumXX(rest), Square(p.0));
      Distribute(b, SumX(rest), p.0);
      Distribute(b, |rest| as real, 1.0);
      TimesOne(b);
    }
  }

  lemma MomentOfDistance(x: real, y: real, m: real, b: real)
    ensures Times(y - (Times(m, x) + b), x) == Times(x, y) - Times(m, Square(x)) - Times(b, x)
  {
    hide Times;
    Distribute(x, y, Times(m, x) + b);
    Distribute(x, Times(m, x), b);
    Associate(m, x, x);
    Associate(x, y, y);
    Associate(x, b, b);
    Associate(x, y - (Times(m, x) + b), b);
  }

  /** The sum of the squares of `dm` times x and `db`. */
  function Shifts(ps: seq<(real, real)>, dm: real, db: real): real {
    if ps == [] then 0.0 else Shifts(ps[1..], dm, db) + Square(Times(dm, ps[0].0) + db)
  }

  /** Another line has larger residuals by what both sums of distances say, and by the squares of the shifts. */
  lemma {:induction false} OtherLine(ps: seq<(real, real)>, m: real, b: real, dm: real, db: real)
    ensures Residuals(ps, m - dm, b - db)
         == Residuals(ps, m, b) + Times(2.0, Times(dm, SumMoments(ps, m, b)) + Times(db, SumDistances(ps, m, b)))
            + Shifts(ps, dm, db)
  {
    if ps == [] {
      assert Times(dm, 0.0) == 0.0 && Times(db, 0.0) == 0.0 && Times(2.0, 0.0) == 0.0;
    } else {
      var rest, p := ps[1..], ps[0];
      OtherLine(rest, m, b, dm, db);
      OtherDistance(p, m, b, dm, db);
      hide Times;
      var e := Distance(p, m, b);
      Distribute(dm, SumMoments(rest, m, b), Times(e, p.0));
      Distribute(db, SumDistances(rest, m, b), e);
      Distribute(2.0, Times(dm, SumMoments(rest, m, b)) + Times(db, SumDistances(rest, m, b)),
                      Times(dm, Times(e, p.0)) + Times(db, e));
    }
  }

  lemma OtherDistance(p: (real, real), m: real, b: real, dm: real, db: real)
    ensures var e := Distance(p, m, b);
            Square(Distance(p, m - dm, b - db))
            == Square(e) + Times(2.0, Times(dm, Times(e, p.0)) + Times(db, e)) + Square(Times(dm, p.0) + db)
  {
    hide Times;
    var e, d := Distance(p, m, b), Times(dm, p.0) + db;
    Distribute(p.0, m, dm);
    assert Distance(p, m - dm, b - db) == e + d;
    SquareOfSum(e, d);
    Distribute(e, Times(dm, p.0), db);
    Associate(e, dm, p.0);
    Associate(e, db, db);
  }

  lemma {:induction false} ShiftsAreSquares(ps: seq<(real, real)>, dm: real, db: real)
    ensures Shifts(ps, dm, db) >= 0.0
    ensures Shifts(ps, dm, db) == 0.0 ==> forall p <- ps :: Times(dm, p.0) + db == 0.0
  {
    if ps != [] {
      hide Times;
      ShiftsAreSquares(ps[1..], dm, db);
      var d := Times(dm, ps[0].0) + db;
      Signs(d, d);
      assert ps == [ps[0]] + ps[1..];
    }
  }

  lemma SquareOfSum(x: real, y: real)
    ensures Square(x + y) == Square(x) + Times(2.0, Times(x, y)) + Square(y)
  {
  }

  lemma OthersAreWorse(ps: seq<(real, real)>, m': real, b': real)
    requires ps != [] && SumXX(ps) - Square(SumX(ps)) / |ps| as real != 0.0
    ensures var m := LineSlope(|ps|, SumX(ps), SumY(ps), SumXX(ps), SumXY(ps));
            var b := Intercept(|ps|, SumX(ps), SumY(ps), m);
            Residuals(ps, m', b') == Residuals(ps, m, b) + Shifts(ps, m - m', b - b')
  {
    hide Times, Residuals, SumDistances, SumMoments, SumX, SumY, SumXX, SumXY, Shifts;
    var n, x, y, xx, xy := |ps| as real, SumX(ps), SumY(ps), SumXX(ps), SumXY(ps);
    var m := LineSlope(|ps|, x, y, xx, xy);
    var b := Intercept(|ps|, x, y, m);
    SumDistancesExpanded(ps, m, b);
    NormalEquations(n, x, y, xx, xy, m, b);
    hide LineSlope, Intercept;
    var dm, db := m - m', b - b';
    OtherLine(ps, m, b, dm, db);
    TimesNothing(dm, db);
    assert m - dm == m' && b - db == b';
  }

  /** No line has a smaller sum of squared distances than the one that the sums determine. */
  lemma LineIsBest(ps: seq<(real, real)>, m': real, b': real)
    requires ps != [] && SumXX(ps) - Square(SumX(ps)) / |ps| as real != 0.0
    ensures var m := LineSlope(|ps|, SumX(ps), SumY(ps), SumXX(ps), SumXY(ps));
            var b := Intercept(|ps|, SumX(ps), SumY(ps), m);
            Residuals(ps, m, b) <= Residuals(ps, m', b')
  {
    hide *;
    OthersAreWorse(ps, m', b');
    var m := LineSlope(|ps|, SumX(ps), SumY(ps), SumXX(ps), SumXY(ps));
    ShiftsAreSquares(ps, m - m', Intercept(|ps|, SumX(ps), SumY(ps), m) - b');
  }

  /** The sum of the squared distances of the x from `c`. */
  function SpreadX(ps: seq<(real, real)>, c: real): real {
    if ps == [] then 0.0 else SpreadX(ps[1..], c) + Square(ps[0].0 - c)
  }

  lemma {:induction false} SpreadXExpanded(ps: seq<(real, real)>, c: real)
    ensures SpreadX(ps, c) == SumXX(ps) - Times(2.0, Times(c, SumX(ps))) + Times(|ps| as real, Square(c))
    ensures SpreadX(ps, c) >= 0.0
    ensures SpreadX(ps, c) == 0.0 <==> forall p <- ps :: p.0 == c
  {
    if ps == [] {
      assert Times(2.0, Times(c, 0.0)) == 0.0 && Times(0.0, Square(c)) == 0.0;
    } else {
      var rest, x := ps[1..], ps[0].0;
      SpreadXExpanded(rest, c);
      Signs(x - c, x - c);
      SquareOfDifference(x, c);
      TimesOne(Square(c));
      hide Times;
      Distribute(c, SumX(rest), x);
      Distribute(2.0, Times(c, SumX(rest)), Times(c, x));
      Distribute(Square(c), |rest| as real, 1.0);
      assert ps == [ps[0]] + rest;
    }
  }

  /** The line is determined just if the x are not all the same. */
  lemma DeterminedExactly(ps: seq<(real, real)>)
    requires ps != []
    ensures SumXX(ps) - Square(SumX(ps)) / |ps| as real != 0.0 <==> exists p <- ps, q <- ps :: p.0 != q.0
  {
    hide Times, SumX, SumXX, SpreadX;
    var n, s := |ps| as real, SumX(ps);
    var c := s / n;
    SpreadXExpanded(ps, c);
    Quotient(s, n, c);
    Associate(n, c, c);
    Associate(c, c, n);
    Associate(c, s, n);
    Quotient(Square(s), n, Times(c, s));
    Associate(s, c, n);
    TimesTwo(Times(c, s));
    if SpreadX(ps, c) != 0.0 {
      var p :| p in ps && p.0 != c;
      if forall q <- ps :: q.0 == p.0 {
        SpreadXExpanded(ps, p.0);
        SameEverywhere(ps, p.0);
        Quotient(s, n, p.0);
      }
    }
  }

  lemma {:induction false} SameEverywhere(ps: seq<(real, real)>, x: real)
    requires forall q <- ps :: q.0 == x
    ensures SumX(ps) == Times(x, |ps| as real)
  {
    if ps == [] {
      assert Times(x, 0.0) == 0.0;
    } else {
      SameEverywhere(ps[1..], x);
      TimesOne(x);
      hide Times;
      Distribute(x, |ps[1..]| as real, 1.0);
      Associate(x, 1.0, 1.0);
    }
  }

  /** When the x are not all the same, there is only one best line. */
  lemma OneLineIsBest(ps: seq<(real, real)>, m': real, b': real)
    requires exists p <- ps, q <- ps :: p.0 != q.0
    requires forall m, b :: Residuals(ps, m', b') <= Residuals(ps, m, b)
    ensures var m := LineSlope(|ps|, SumX(ps), SumY(ps), SumXX(ps), SumXY(ps));
            m == m' && Intercept(|ps|, SumX(ps), SumY(ps), m) == b'
  {
    hide *;
    var p, q :| p in ps && q in ps && p.0 != q.0;
    DeterminedExactly(ps);
    OthersAreWorse(ps, m', b');
    var m := LineSlope(|ps|, SumX(ps), SumY(ps), SumXX(ps), SumXY(ps));
    var b := Intercept(|ps|, SumX(ps), SumY(ps), m);
    ShiftsAreSquares(ps, m - m', b - b');
    assert Residuals(ps, m', b') <= Residuals(ps, m, b);
    NoShift(m - m', b - b', p.0, q.0);
  }

  lemma NoShift(dm: real, db: real, x: real, y: real)
    requires x != y && Times(dm, x) + db == 0.0 && Times(dm, y) + db == 0.0
    ensures dm == 0.0 && db == 0.0
  {
    Distribute(dm, x, y);
    Signs(dm, x - y);
  }

  /** A line that goes through all the points is the best one. */
  lemma {:induction false} ExactLineIsBest(ps: seq<(real, real)>, m': real, b': real)
    requires forall p <- ps :: p.1 == Times(m', p.0) + b'
    ensures Residuals(ps, m', b') == 0.0
  {
    if ps != [] {
      ExactLineIsBest(ps[1..], m', b');
      assert Distance(ps[0], m', b') == 0.0;
    }
  }

  lemma {:induction false} ResidualsAreSquares(ps: seq<(real, real)>, m: real, b: real)
    ensures Residuals(ps, m, b) >= 0.0
  {
    if ps != [] {
      ResidualsAreSquares(ps[1..], m, b);
      Signs(Distance(ps[0], m, b), 0.0);
    }
  }

  lemma TimesNothing(x: real, y: real)
    ensures Times(2.0, Times(x, 0.0) + Times(y, 0.0)) == 0.0
  {
  }

  lemma NormalEquations(n: real, x: real, y: real, xx: real, xy: real, m: real, b: real)
    requires n > 0.0 && xx - Square(x) / n != 0.0
    requires m == (xy - Times(x, y) / n) / (xx - Square(x) / n) && b == y / n - Times(m, x / n)
    ensures y - Times(m, x) - Times(n, b) == 0.0 && xy - Times(m, xx) - Times(b, x) == 0.0
  {
    var u, v := x / n, y / n;
    Quotient(x, n, u);
    Quotient(y, n, v);
    Quotient(Times(x, y), n, Times(x, v));
    Quotient(Square(x), n, Times(x, u));
    hide Times;
    Associate(x, v, n);
    Associate(x, u, n);
    Associate(n, x, v);
    Associate(n, x, u);
    Associate(v, n, n);
    Associate(u, n, n);
    Quotient(xy - Times(x, v), xx - Times(x, u), m);
    Distribute(m, xx, Times(x, u));
    Distribute(n, v, Times(m, u));
    Distribute(x, v, Times(m, u));
    Associate(n, m, u);
    Associate(x, m, u);
    Associate(m, x, u);
    Associate(b, x, x);
  }
}
