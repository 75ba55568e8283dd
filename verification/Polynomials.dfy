/** Polynomials with real coefficients, lowest power first, and their formal calculus. */
module Polynomials {
  import opened ExactArithmetic

  type Poly = seq<real>

  function Eval(p: Poly, x: real): real {
    if p == [] then 0.0 else p[0] + Times(x, Eval(p[1..], x))
  }

  function Add(p: Poly, q: Poly): Poly {
    if p == [] then q else if q == [] then p else [p[0] + q[0]] + Add(p[1..], q[1..])
  }

  /** Coefficient j, divided by k + j. */
  function AntiderivativeFrom(p: Poly, k: nat): (r: Poly)
    requires k > 0
    ensures |r| == |p|
  {
    if p == [] then [] else [p[0] / k as real] + AntiderivativeFrom(p[1..], k + 1)
  }

  /** The antiderivative that vanishes at 0. */
  function Antiderivative(p: Poly): Poly {
    [0.0] + AntiderivativeFrom(p, 1)
  }

  function DerivativeFrom(p: Poly, k: nat): Poly {
    if p == [] then [] else [Times(k as real, p[0])] + DerivativeFrom(p[1..], k + 1)
  }

  function Derivative(p: Poly): Poly {
    if p == [] then [] else DerivativeFrom(p[1..], 1)
  }

  /** The integral of `p` from 0 to `r`. */
  function Integral(p: Poly, r: real): real {
    Eval(Antiderivative(p), r)
  }

  lemma EvalCons(c: real, p: Poly, x: real)
    ensures Eval([c] + p, x) == c + Times(x, Eval(p, x))
  {
    hide Times;
    assert ([c] + p)[1..] == p;
  }

  lemma {:induction false} EvalAdd(p: Poly, q: Poly, x: real)
    ensures Eval(Add(p, q), x) == Eval(p, x) + Eval(q, x)
  {
    hide Times;
    if p != [] && q != [] {
      EvalAdd(p[1..], q[1..], x);
      EvalCons(p[0] + q[0], Add(p[1..], q[1..]), x);
      Distribute(x, Eval(p[1..], x), Eval(q[1..], x));
    }
  }

  lemma {:induction false} AddAt(p: Poly, q: Poly)
    requires |p| == |q|
    ensures |Add(p, q)| == |p| && forall k :: 0 <= k < |p| ==> Add(p, q)[k] == p[k] + q[k]
  {
    if p != [] {
      AddAt(p[1..], q[1..]);
    }
  }

  lemma {:induction false} AntiderivativeAt(p: Poly, k: nat)
    requires k > 0
    ensures forall j :: 0 <= j < |p| ==> AntiderivativeFrom(p, k)[j] == p[j] / (k + j) as real
  {
    if p != [] {
      AntiderivativeAt(p[1..], k + 1);
      forall j | 0 <= j < |p| ensures AntiderivativeFrom(p, k)[j] == p[j] / (k + j) as real {
        assert j > 0 ==> AntiderivativeFrom(p, k)[j] == AntiderivativeFrom(p[1..], k + 1)[j - 1];
      }
    }
  }

  lemma {:induction false} DerivativeOfAntiderivative(p: Poly, k: nat)
    requires k > 0
    ensures DerivativeFrom(AntiderivativeFrom(p, k), k) == p
  {
    if p != [] {
      DerivativeOfAntiderivative(p[1..], k + 1);
      var q, c := AntiderivativeFrom(p, k), k as real;
      assert q[0] == p[0] / c && q[1..] == AntiderivativeFrom(p[1..], k + 1);
      assert Times(c, p[0] / c) == p[0];
      assert DerivativeFrom(q, k) == [p[0]] + p[1..];
    }
  }

  /** The remainder of the first-order expansion of `p` at `x`. */
  function Remainder(p: Poly, x: real, h: real): real {
    if p == [] then 0.0 else Eval(Derivative(p[1..]), x) + Times(x + h, Remainder(p[1..], x, h))
  }

  lemma {:induction false} EvalDerivativeFrom(p: Poly, k: nat, x: real)
    ensures Eval(DerivativeFrom(p, k + 1), x) == Eval(DerivativeFrom(p, k), x) + Eval(p, x)
  {
    if p != [] {
      assert Times((k + 1) as real, p[0]) == Times(k as real, p[0]) + p[0];
      hide Times;
      var t := p[1..];
      EvalDerivativeFrom(t, k + 1, x);
      EvalCons(Times(k as real, p[0]), DerivativeFrom(t, k + 1), x);
      EvalCons(Times((k + 1) as real, p[0]), DerivativeFrom(t, k + 2), x);
      Distribute(x, Eval(DerivativeFrom(t, k + 1), x), Eval(t, x));
    }
  }

  /** The product rule for `c + x*p`. */
  lemma EvalDerivative(p: Poly, x: real)
    requires p != []
    ensures Eval(Derivative(p), x) == Eval(p[1..], x) + Times(x, Eval(Derivative(p[1..]), x))
  {
    var q := p[1..];
    EvalDerivativeFrom(q, 0, x);
    if q != [] {
      EvalCons(0.0, DerivativeFrom(q[1..], 1), x);
    }
  }

  /** `Derivative` is the derivative: the error of the linear approximation is quadratic in the step. */
  lemma {:induction false} DerivativeIsSlope(p: Poly, x: real, h: real)
    ensures Eval(p, x + h) == Eval(p, x) + Times(h, Eval(Derivative(p), x)) + Times(h, Times(h, Remainder(p, x, h)))
  {
    if p != [] {
      hide Times;
      var t := p[1..];
      var e, d, m := Eval(t, x), Eval(Derivative(t), x), Remainder(t, x, h);
      DerivativeIsSlope(t, x, h);
      EvalDerivative(p, x);
      SlopeStep(x, h, e, d, m);
    }
  }

  lemma SlopeStep(x: real, h: real, e: real, d: real, m: real)
    ensures Times(x + h, e + Times(h, d) + Times(h, Times(h, m))) ==
            Times(x, e) + Times(h, e + Times(x, d)) + Times(h, Times(h, d + Times(x + h, m)))
  {
    hide Times;
    var hd, hhm := Times(h, d), Times(h, Times(h, m));
    Distribute(x + h, e + hd, hhm);
    Distribute(x + h, e, hd);
    Distribute(e, x, h);
    Distribute(hd, x, h);
    Associate(x, e, e);
    Associate(h, e, e);
    Associate(x + h, h, Times(h, m));
    Associate(x + h, h, m);
    Distribute(h, e, Times(x, d));
    Distribute(h, d, Times(x + h, m));
    Distribute(h, hd, Times(h, Times(x + h, m)));
    Associate(x, h, d);
    Associate(x, hd, hd);
    Associate(h, hd, hd);
    Associate(x + h, e, e);
    Associate(x + h, hd, hd);
  }

  /** `Integral` is the integral from 0: it vanishes at 0, and its slope at `x` is `p`. */
  lemma IntegralIsIntegral(p: Poly, x: real, h: real)
    ensures Integral(p, 0.0) == 0.0
    ensures Integral(p, x + h) == Integral(p, x) + h * Eval(p, x) + h * h * Remainder(Antiderivative(p), x, h)
  {
    var q := Antiderivative(p);
    assert q[1..] == AntiderivativeFrom(p, 1);
    DerivativeOfAntiderivative(p, 1);
    assert Eval(q, 0.0) == 0.0 + Times(0.0, Eval(q[1..], 0.0));
    DerivativeIsSlope(q, x, h);
    assert Derivative(q) == p;
    hide Eval, Remainder, Antiderivative, Derivative;
    var m := Remainder(q, x, h);
    assert h * (h * m) == h * h * m;
  }
}
