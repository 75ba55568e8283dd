/**
 The mapping functions of the two Goad-Goodman tropospheric models.  Both integrate the fourth
 power of a quadratic refractivity profile 1 + a*x + b*x*x along the path, from 0 to r.
 */
module TropModel {
  import opened ExactArithmetic
  import opened Polynomials

  function Quadratic(a: real, b: real, x: real): real {
    1.0 + a * x + b * x * x
  }

  /** The nine coefficients the first model writes out. */
  function Coefficients(a: real, b: real): Poly {
    CoefficientsFrom(a, b, a * a, b * b)
  }

  function CoefficientsFrom(a: real, b: real, a2: real, b2: real): Poly {
    [1.0,
     4.0 * a,
     6.0 * a2 + 4.0 * b,
     4.0 * a * (a2 + 3.0 * b),
     a2 * a2 + 12.0 * a2 * b + 6.0 * b2,
     4.0 * a * b * (a2 + 3.0 * b),
     b2 * (6.0 * a2 + 4.0 * b),
     4.0 * a * b * b2,
     b2 * b2]
  }

  /** A polynomial of degree 8 in nested form. */
  function Nested(c0: real, c1: real, c2: real, c3: real, c4: real, c5: real, c6: real, c7: real, c8: real,
                  x: real): real {
    c0 + x * (c1 + x * (c2 + x * (c3 + x * (c4 + x * (c5 + x * (c6 + x * (c7 + x * c8)))))))
  }

  lemma EvalNine(c0: real, c1: real, c2: real, c3: real, c4: real, c5: real, c6: real, c7: real, c8: real, x: real)
    ensures Eval([c0, c1, c2, c3, c4, c5, c6, c7, c8], x) == Nested(c0, c1, c2, c3, c4, c5, c6, c7, c8, x)
  {
    var p := [c0, c1, c2, c3, c4, c5, c6, c7, c8];
    var e8 := c8; var e7 := c7 + x * e8; var e6 := c6 + x * e7; var e5 := c5 + x * e6;
    var e4 := c4 + x * e5; var e3 := c3 + x * e4; var e2 := c2 + x * e3; var e1 := c1 + x * e2;
    EvalCons(c8, [], x);
    EvalCons(c7, [c8], x);
    EvalCons(c6, [c7, c8], x);
    EvalCons(c5, [c6, c7, c8], x);
    EvalCons(c4, [c5, c6, c7, c8], x);
    EvalCons(c3, [c4, c5, c6, c7, c8], x);
    EvalCons(c2, [c3, c4, c5, c6, c7, c8], x);
    EvalCons(c1, [c2, c3, c4, c5, c6, c7, c8], x);
    EvalCons(c0, [c1, c2, c3, c4, c5, c6, c7, c8], x);
  }

  /** The square of a quartic that starts with 1, coefficient by coefficient. */
  function SquareTerms(s1: real, s2: real, s3: real, s4: real): Poly {
    [1.0, 2.0 * s1, 2.0 * s2 + s1 * s1, 2.0 * s3 + 2.0 * s1 * s2, 2.0 * s4 + 2.0 * s1 * s3 + s2 * s2,
     2.0 * s1 * s4 + 2.0 * s2 * s3, 2.0 * s2 * s4 + s3 * s3, 2.0 * s3 * s4, s4 * s4]
  }

  /** A quartic that starts with 1, in nested form. */
  function Quartic(s1: real, s2: real, s3: real, s4: real, x: real): real {
    1.0 + x * (s1 + x * (s2 + x * (s3 + x * s4)))
  }

  lemma SquareNested(s1: real, s2: real, s3: real, s4: real, x: real)
    ensures Square(Quartic(s1, s2, s3, s4, x)) ==
            Nested(1.0, 2.0 * s1, 2.0 * s2 + s1 * s1, 2.0 * s3 + 2.0 * s1 * s2, 2.0 * s4 + 2.0 * s1 * s3 + s2 * s2,
                   2.0 * s1 * s4 + 2.0 * s2 * s3, 2.0 * s2 * s4 + s3 * s3, 2.0 * s3 * s4, s4 * s4, x)
  {
  }

  lemma SquareQuartic(s1: real, s2: real, s3: real, s4: real, x: real)
    ensures Eval(SquareTerms(s1, s2, s3, s4), x) == Square(Quartic(s1, s2, s3, s4, x))
  {
    SquareNested(s1, s2, s3, s4, x);
    hide Eval, Nested, Square, Quartic;
    EvalNine(1.0, 2.0 * s1, 2.0 * s2 + s1 * s1, 2.0 * s3 + 2.0 * s1 * s2, 2.0 * s4 + 2.0 * s1 * s3 + s2 * s2,
             2.0 * s1 * s4 + 2.0 * s2 * s3, 2.0 * s2 * s4 + s3 * s3, 2.0 * s3 * s4, s4 * s4, x);
  }

  lemma SquareQuadratic(a: real, b: real, x: real)
    ensures Square(Quadratic(a, b, x)) == Quartic(2.0 * a, a * a + 2.0 * b, 2.0 * a * b, b * b, x)
  {
  }

  lemma CoefficientsBySquares(a: real, b: real)
    ensures Coefficients(a, b) == SquareTerms(2.0 * a, a * a + 2.0 * b, 2.0 * a * b, b * b)
  {
  }

  /** The coefficients are those of the fourth power of the profile. */
  lemma CoefficientsAreFourthPower(a: real, b: real, x: real)
    ensures Eval(Coefficients(a, b), x) == Square(Square(Quadratic(a, b, x)))
  {
    hide Eval, Square, Quartic, Quadratic, Coefficients, SquareTerms;
    CoefficientsBySquares(a, b);
    SquareQuadratic(a, b, x);
    SquareQuartic(2.0 * a, a * a + 2.0 * b, 2.0 * a * b, b * b, x);
  }

  // ----- the first model

  /**
   The dry and the wet mapping function, up to the constant by which each is finally divided: fill
   the coefficients, and sum from the highest.
   */
  method MappingSum(a: real, b: real, r: real) returns (sum: real)
    ensures sum == Integral(Coefficients(a, b), r)
  {
    var A := FillCoefficients(a, b, a * a, b * b);
    sum := HornerIntegral(A, r);
  }

  method FillCoefficients(a: real, b: real, a2: real, b2: real) returns (A: array<real>)
    ensures fresh(A) && A[..] == CoefficientsFrom(a, b, a2, b2)
  {
    A := new real[9];
    A[0] := 1.0;
    A[1] := 4.0 * a;
    A[2] := 6.0 * a2 + 4.0 * b;
    A[3] := 4.0 * a * (a2 + 3.0 * b);
    A[4] := a2 * a2 + 12.0 * a2 * b + 6.0 * b2;
    A[5] := 4.0 * a * b * (a2 + 3.0 * b);
    A[6] := b2 * (6.0 * a2 + 4.0 * b);
    A[7] := 4.0 * a * b * b2;
    A[8] := b2 * b2;
    assert A[..] == [A[0], A[1], A[2], A[3], A[4], A[5], A[6], A[7], A[8]];
  }

  method HornerIntegral(A: array<real>, r: real) returns (sum: real)
    ensures sum == Integral(A[..], r)
  {
    sum := 0.0;
    for j := A.Length downto 0
      invariant sum == Times(r, Eval(AntiderivativeFrom(A[j..], j + 1), r))
    {
      ghost var p := A[j..];
      assert p[0] == A[j] && p[1..] == A[j + 1..];
      EvalCons(A[j] / (j + 1) as real, AntiderivativeFrom(p[1..], j + 2), r);
      sum := sum + A[j] / (j + 1) as real;
      Associate(r, sum, r);
      sum := Times(sum, r);
    }
    assert A[0..] == A[..];
    EvalCons(0.0, AntiderivativeFrom(A[..], 1), r);
  }

  // ----- the model with heights

  const SEVENTH := 0.1428571
  const NEGLIGIBLE := 1.0 / 100000000000000000000000000000000000.0

  /** The coefficients of the powers 2 to 9 the second model writes out. */
  function HeightTerms(a: real, b: real): Poly {
    [2.0 * a,
     2.0 * a * a + 4.0 * b / 3.0,
     a * (a * a + 3.0 * b),
     a * a * a * a / 5.0 + 2.4 * a * a * b + 1.2 * b * b,
     2.0 * a * b * (a * a + 3.0 * b) / 3.0,
     b * b * (6.0 * a * a + 4.0 * b) * SEVENTH,
     if b * b > NEGLIGIBLE then a * b * b * b / 2.0 else 0.0,
     if b * b > NEGLIGIBLE then b * b * b * b / 9.0 else 0.0]
  }

  function Power(x: real, n: nat): real {
    if n == 0 then 1.0 else Times(x, Power(x, n - 1))
  }

  /** The powers 2 to 9 of the path length. */
  method Powers(rt: real) returns (rn: array<real>)
    ensures fresh(rn) && rn.Length == 8
    ensures forall k :: 0 <= k < 8 ==> rn[k] == Times(rt, Times(rt, Power(rt, k)))
  {
    rn := new real[8];
    rn[0] := rt * rt;
    for j := 1 to 8
      invariant forall k :: 0 <= k < j ==> rn[k] == Times(rt, Times(rt, Power(rt, k)))
    {
      rn[j] := Times(rn[j - 1], rt);
      PowerStep(rt, j - 1);
    }
  }

  lemma PowerStep(x: real, k: nat)
    ensures Times(Times(x, Times(x, Power(x, k))), x) == Times(x, Times(x, Power(x, k + 1)))
  {
    hide Times;
    Associate(x, Times(x, Times(x, Power(x, k))), x);
  }

  method HeightCoefficients(a: real, b: real) returns (al: array<real>)
    ensures fresh(al) && al.Length == 8 && al[..] == HeightTerms(a, b)
  {
    al := new real[8];
    al[0] := 2.0 * a;
    al[1] := 2.0 * a * a + 4.0 * b / 3.0;
    al[2] := a * (a * a + 3.0 * b);
    al[3] := a * a * a * a / 5.0 + 2.4 * a * a * b + 1.2 * b * b;
    al[4] := 2.0 * a * b * (a * a + 3.0 * b) / 3.0;
    al[5] := b * b * (6.0 * a * a + 4.0 * b) * SEVENTH;
    if b * b > NEGLIGIBLE {
      al[6] := a * b * b * b / 2.0;
      al[7] := b * b * b * b / 9.0;
    } else {
      al[6], al[7] := 0.0, 0.0;
    }
    assert al[..] == [al[0], al[1], al[2], al[3], al[4], al[5], al[6], al[7]];
  }

  /** The sum of the terms, before it is divided by the height norm. */
  method HeightMappingSum(a: real, b: real, rt: real) returns (total: real)
    ensures total == rt + Times(rt, Times(rt, Eval(HeightTerms(a, b), rt)))
  {
    var rn := Powers(rt);
    var al := HeightCoefficients(a, b);
    total := rt;
    hide Times, HeightTerms;
    assert al[0..] == al[..];
    WeightedStart(rt, Eval(al[..], rt));
    for k := 0 to 8
      invariant al[..] == HeightTerms(a, b)
      invariant forall j :: 0 <= j < 8 ==> rn[j] == Times(rt, Times(rt, Power(rt, j)))
      invariant total + Weighted(rt, k, Eval(al[k..], rt)) == rt + Times(rt, Times(rt, Eval(al[..], rt)))
    {
      assert al[k..] == [al[k]] + al[k + 1..];
      EvalCons(al[k], al[k + 1..], rt);
      WeightedStep(rt, k, al[k], Eval(al[k + 1..], rt));
      total := total + Times(al[k], rn[k]);
    }
    assert al[8..] == [];
    WeightedEnd(rt);
  }

  /** What the terms from power k + 2 on contribute, if their sum is `e` in units of that power. */
  function Weighted(x: real, k: nat, e: real): real {
    Times(Times(x, Times(x, Power(x, k))), e)
  }

  lemma WeightedStart(x: real, e: real)
    ensures Weighted(x, 0, e) == Times(x, Times(x, e))
  {
    Associate(x, x, e);
  }

  lemma WeightedStep(x: real, k: nat, c: real, e: real)
    ensures Weighted(x, k, c + Times(x, e)) == Times(c, Times(x, Times(x, Power(x, k)))) + Weighted(x, k + 1, e)
  {
    var w := Times(x, Times(x, Power(x, k)));
    hide Times, Power;
    PowerStep(x, k);
    Distribute(w, c, Times(x, e));
    Associate(w, c, c);
    Associate(w, x, e);
  }

  lemma WeightedEnd(x: real)
    ensures Weighted(x, 8, 0.0) == 0.0
  {
  }

  // ----- the two models compared

  /** What the coefficients of the height model lack: the error in 1/7, and the negligible terms. */
  function Shortfall(a: real, b: real): Poly {
    [0.0, 0.0, 0.0, 0.0, 0.0,
     b * b * (6.0 * a * a + 4.0 * b) * (1.0 / 7.0 - SEVENTH),
     if b * b > NEGLIGIBLE then 0.0 else a * b * b * b / 2.0,
     if b * b > NEGLIGIBLE then 0.0 else b * b * b * b / 9.0]
  }

  lemma TermByTerm(a: real, b: real, k: nat)
    requires k < 8
    ensures Coefficients(a, b)[k + 1] / (k + 2) as real == HeightTerms(a, b)[k] + Shortfall(a, b)[k]
  {
    match k
    case 0 =>
    case 1 =>
    case 2 =>
    case 3 =>
    case 4 =>
    case 5 =>
    case 6 =>
    case 7 =>
  }

  lemma CoefficientsSplit(a: real, b: real)
    ensures AntiderivativeFrom(Coefficients(a, b), 1) == [1.0] + Add(HeightTerms(a, b), Shortfall(a, b))
  {
    var c, h, s := Coefficients(a, b), HeightTerms(a, b), Shortfall(a, b);
    AntiderivativeAt(c, 1);
    AddAt(h, s);
    var p, q := AntiderivativeFrom(c, 1), [1.0] + Add(h, s);
    assert p[0] == 1.0;
    hide Coefficients, HeightTerms, Shortfall, AntiderivativeFrom, Add;
    forall k | 1 <= k < 9 ensures p[k] == q[k] {
      TermByTerm(a, b, k - 1);
    }
  }

  /**
   The integral of the profile exceeds the sum of the height model by exactly the shortfall of its
   coefficients.
   */
  lemma HeightModelFallsShort(a: real, b: real, r: real)
    ensures Integral(Coefficients(a, b), r) ==
            r + Times(r, Times(r, Eval(HeightTerms(a, b), r))) + Times(r, Times(r, Eval(Shortfall(a, b), r)))
  {
    var h, s := HeightTerms(a, b), Shortfall(a, b);
    CoefficientsSplit(a, b);
    EvalCons(0.0, AntiderivativeFrom(Coefficients(a, b), 1), r);
    EvalCons(1.0, Add(h, s), r);
    EvalAdd(h, s, r);
    assert Times(r, 1.0) == r;
    hide Times, Eval, Coefficients, HeightTerms, Shortfall, AntiderivativeFrom;
    Distribute(r, 1.0, Times(r, Eval(Add(h, s), r)));
    Distribute(r, Eval(h, r), Eval(s, r));
    Distribute(r, Times(r, Eval(h, r)), Times(r, Eval(s, r)));
  }

  lemma {:induction false} EvalZeros(n: nat, p: Poly, x: real)
    ensures Eval(seq(n, _ => 0.0) + p, x) == Times(Power(x, n), Eval(p, x))
  {
    var zeros := seq(n, _ => 0.0);
    if n == 0 {
      assert zeros + p == p;
    } else {
      EvalZeros(n - 1, p, x);
      assert zeros + p == [0.0] + (seq(n - 1, _ => 0.0) + p);
      EvalCons(0.0, seq(n - 1, _ => 0.0) + p, x);
      Associate(x, Power(x, n - 1), Eval(p, x));
    }
  }

  /** Its size: 3e-7/7 of the term in the seventh power, and the two highest terms when they are dropped. */
  lemma ShortfallValue(a: real, b: real, r: real)
    ensures Times(r, Times(r, Eval(Shortfall(a, b), r))) ==
            Times(Power(r, 7), b * b * (6.0 * a * a + 4.0 * b) * (0.0000003 / 7.0))
            + if b * b > NEGLIGIBLE then 0.0
              else Times(Power(r, 8), a * b * b * b / 2.0) + Times(Power(r, 9), b * b * b * b / 9.0)
  {
    var s := Shortfall(a, b);
    var d5, d6, d7 := s[5], s[6], s[7];
    assert d5 == b * b * (6.0 * a * a + 4.0 * b) * (0.0000003 / 7.0);
    assert s == seq(5, _ => 0.0) + [d5, d6, d7];
    hide Shortfall;
    EvalZeros(5, [d5, d6, d7], r);
    EvalCons(d7, [], r);
    EvalCons(d6, [d7], r);
    EvalCons(d5, [d6, d7], r);
    TopTerms(r, d5, d6, d7);
  }

  lemma TopTerms(x: real, d5: real, d6: real, d7: real)
    ensures Times(x, Times(x, Times(Power(x, 5), d5 + Times(x, d6 + Times(x, d7 + Times(x, 0.0)))))) ==
            Times(Power(x, 7), d5) + Times(Power(x, 8), d6) + Times(Power(x, 9), d7)
  {
    assert Times(x, 0.0) == 0.0;
    hide Times;
    var e := Times(x, d7);
    RaisePower(x, 5, d5 + Times(x, d6 + e));
    RaisePower(x, 6, d5 + Times(x, d6 + e));
    Distribute(Power(x, 7), d5, Times(x, d6 + e));
    RaisePower(x, 7, d6 + e);
    Distribute(Power(x, 8), d6, e);
    RaisePower(x, 8, d7);
  }

  lemma RaisePower(x: real, n: nat, e: real)
    ensures Times(x, Times(Power(x, n), e)) == Times(Power(x, n + 1), e)
    ensures Times(Power(x, n), Times(x, e)) == Times(Power(x, n + 1), e)
  {
    hide Times;
    Associate(x, Power(x, n), e);
  }
}
