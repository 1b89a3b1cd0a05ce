/** The rescaled curvature polynomial g(x) = h(omega * x) / omega of the
    surface model, over numpy's coefficient convention (lowest power first). */
module NormPolys {

  /** Polynomial coefficients, constant term first. */
  type Coefs = seq<real>

  /** Horner evaluation c0 + x * (c1 + x * (c2 + ...)), as `Polynomial.__call__` does it. */
  function Horner(c: Coefs, x: real): real
    decreases |c|
  {
    if |c| == 0 then 0.0 else c[0] + x * Horner(c[1..], x)
  }

  function Pow(x: real, n: nat): real
  {
    if n == 0 then 1.0 else x * Pow(x, n - 1)
  }

  /** The textbook reading of a coefficient list: the sum of c[i] * x^i. */
  function PowerSum(c: Coefs, x: real): real
  {
    if |c| == 0 then 0.0 else PowerSum(c[..|c| - 1], x) + c[|c| - 1] * Pow(x, |c| - 1)
  }

  /** numpy's formal derivative (`polyder`): [1*c1, 2*c2, ...], and [0] for a constant. */
  function Deriv(c: Coefs): (d: Coefs)
    requires |c| > 0
    ensures |d| == if |c| == 1 then 1 else |c| - 1
  {
    if |c| == 1 then [0.0]
    else seq(|c| - 1, j requires 0 <= j < |c| - 1 => (j + 1) as real * c[j + 1])
  }

  function Scale(k: real, c: Coefs): (d: Coefs)
    ensures |d| == |c| && forall i :: 0 <= i < |c| ==> d[i] == k * c[i]
  {
    seq(|c|, i requires 0 <= i < |c| => k * c[i])
  }

  /** The divided difference (p(x) - p(y)) / (x - y) of the polynomial, as a polynomial expression. */
  function Secant(c: Coefs, x: real, y: real): real
    decreases |c|
  {
    if |c| == 0 then 0.0 else Horner(c[1..], x) + y * Secant(c[1..], x, y)
  }

  lemma {:induction false} HornerSnoc(c: Coefs, a: real, x: real)
    ensures Horner(c + [a], x) == Horner(c, x) + a * Pow(x, |c|)
    decreases |c|
  {
    if |c| > 0 {
      assert (c + [a])[1..] == c[1..] + [a];
      HornerSnoc(c[1..], a, x);
      calc {
        Horner(c + [a], x);
        c[0] + x * (Horner(c[1..], x) + a * Pow(x, |c| - 1));
        c[0] + x * Horner(c[1..], x) + a * (x * Pow(x, |c| - 1));
      }
    }
  }

  /** Horner's rule computes the power sum. */
  lemma {:induction false} HornerIsPowerSum(c: Coefs, x: real)
    ensures Horner(c, x) == PowerSum(c, x)
    decreases |c|
  {
    if |c| > 0 {
      var init := c[..|c| - 1];
      assert c == init + [c[|c| - 1]];
      HornerSnoc(init, c[|c| - 1], x);
      HornerIsPowerSum(init, x);
    }
  }

  lemma {:induction false} HornerScale(k: real, c: Coefs, d: Coefs, x: real)
    requires |d| == |c| && forall i :: 0 <= i < |c| ==> d[i] == k * c[i]
    ensures Horner(d, x) == k * Horner(c, x)
    decreases |c|
  {
    if |c| > 0 {
      HornerScale(k, c[1..], d[1..], x);
    }
  }

  /** p(x) - p(y) == (x - y) * Secant(p, x, y). */
  lemma {:induction false} SecantFactor(c: Coefs, x: real, y: real)
    ensures Horner(c, x) - Horner(c, y) == (x - y) * Secant(c, x, y)
    decreases |c|
  {
    if |c| > 0 {
      var q := c[1..];
      SecantFactor(q, x, y);
      HornerUnfold(c, x);
      HornerUnfold(c, y);
      SecantUnfold(c, x, y);
      SecantStep(c[0], x, y, Horner(q, x), Horner(q, y), Secant(q, x, y));
    }
  }

  lemma HornerUnfold(c: Coefs, x: real)
    requires |c| > 0
    ensures Horner(c, x) == c[0] + x * Horner(c[1..], x)
  {
  }

  lemma SecantUnfold(c: Coefs, x: real, y: real)
    requires |c| > 0
    ensures Secant(c, x, y) == Horner(c[1..], x) + y * Secant(c[1..], x, y)
  {
  }

  /** One Horner step of SecantFactor, over plain numbers. */
  lemma SecantStep(c0: real, x: real, y: real, hx: real, hy: real, s: real)
    requires hx - hy == (x - y) * s
    ensures (c0 + x * hx) - (c0 + y * hy) == (x - y) * (hx + y * s)
  {
    calc {
      (c0 + x * hx) - (c0 + y * hy);
      (x - y) * hx + y * (hx - hy);
      (x - y) * hx + y * ((x - y) * s);
      (x - y) * (hx + y * s);
    }
  }

  /** The secant at a double point is the formal derivative: Deriv is the derivative. */
  lemma {:induction false} SecantAtPoint(c: Coefs, x: real)
    requires |c| > 0
    ensures Secant(c, x, x) == Horner(Deriv(c), x)
    decreases |c|
  {
    var q := c[1..];
    assert Secant(c, x, x) == Horner(q, x) + x * Secant(q, x, x);
    if |c| == 1 {
      assert Deriv(c) == [0.0];
      assert Horner([0.0], x) == 0.0 + x * Horner([], x);
    } else if |c| == 2 {
      assert Deriv(c) == [c[1]] == q;
      assert Secant(q, x, x) == Horner([], x) + x * Secant([], x, x);
    } else {
      SecantAtPoint(q, x);
      DerivStep(c, x);
    }
  }

  /** Deriv(c) is c[1..] plus the shifted derivative of c[1..], term by term. */
  lemma DerivStep(c: Coefs, x: real)
    requires |c| >= 3
    ensures Horner(Deriv(c), x) == Horner(c[1..], x) + x * Horner(Deriv(c[1..]), x)
  {
    DerivStepAt(c, c[1..], Deriv(c), Deriv(c[1..]), x);
  }

  lemma DerivStepAt(c: Coefs, q: Coefs, d: Coefs, dq: Coefs, x: real)
    requires |c| >= 3 && q == c[1..] && d == Deriv(c) && dq == Deriv(q)
    ensures Horner(d, x) == Horner(q, x) + x * Horner(dq, x)
  {
    DerivEntries(c, q, d, dq);
    DerivShift(q, d, dq, x);
  }

  /** The coefficients of Deriv(c) and Deriv(c[1..]) in terms of q = c[1..]. */
  lemma DerivEntries(c: Coefs, q: Coefs, d: Coefs, dq: Coefs)
    requires |c| >= 3 && q == c[1..] && d == Deriv(c) && dq == Deriv(q)
    ensures |q| >= 2 && |d| == |q| && |dq| == |q| - 1
    ensures forall j :: 0 <= j < |q| ==> d[j] == (j + 1) as real * q[j]
    ensures forall j :: 0 <= j < |dq| ==> dq[j] == (j + 1) as real * q[j + 1]
  {
  }

  /** Helper for SecantAtPoint: Horner(d) == Horner(q) + x * Horner(dq) when d[j] == q[j] + j * q[j]. */
  lemma {:induction false} DerivShift(q: Coefs, d: Coefs, dq: Coefs, x: real)
    requires |q| >= 2 && |d| == |q| && |dq| == |q| - 1
    requires forall j :: 0 <= j < |q| ==> d[j] == (j + 1) as real * q[j]
    requires forall j :: 0 <= j < |dq| ==> dq[j] == (j + 1) as real * q[j + 1]
    ensures Horner(d, x) == Horner(q, x) + x * Horner(dq, x)
  {
    var shifted := [0.0] + dq;
    assert |shifted| == |q|;
    forall j | 0 <= j < |q| ensures d[j] == q[j] + shifted[j] {
      if j > 0 {
        assert shifted[j] == dq[j - 1];
      }
    }
    HornerAdd(q, shifted, d, x);
    assert shifted[1..] == dq;
  }

  lemma {:induction false} HornerAdd(a: Coefs, b: Coefs, s: Coefs, x: real)
    requires |a| == |b| == |s|
    requires forall j :: 0 <= j < |s| ==> s[j] == a[j] + b[j]
    ensures Horner(s, x) == Horner(a, x) + Horner(b, x)
    decreases |s|
  {
    if |s| > 0 {
      HornerAdd(a[1..], b[1..], s[1..], x);
    }
  }

  /** Dividing a secant identity of h at omega * x and omega * y by omega. */
  lemma DivideSecant(hx: real, hy: real, w: real, x: real, y: real, s: real)
    requires w != 0.0 && hx - hy == (w * x - w * y) * s
    ensures hx / w - hy / w == (x - y) * s
  {
    assert hx - hy == w * ((x - y) * s);
    calc {
      hx / w - hy / w;
      (hx - hy) / w;
      (w * ((x - y) * s)) / w;
      (x - y) * s;
    }
  }

  /** g(x) = h(omega * x) / omega, `NormPoly` of rebook/dewarp.py. */
  datatype NormPoly = NormPoly(coef: Coefs, omega: real)

  /** `Poly(coef)` refuses an empty coefficient list; `__call__` divides by omega. */
  predicate Valid(g: NormPoly)
  {
    |g.coef| > 0 && g.omega != 0.0
  }

  /** The argument omega * x at which h is evaluated. */
  function Inner(g: NormPoly, x: real): real
  {
    g.omega * x
  }

  /** `__call__`: h evaluated at omega * x, divided by omega, where h is the sum of coef[i] * u^i. */
  function Eval(g: NormPoly, x: real): (v: real)
    requires g.omega != 0.0
    ensures v == PowerSum(g.coef, g.omega * x) / g.omega
  {
    var u := Inner(g, x);
    HornerIsPowerSum(g.coef, u);
    assert u == g.omega * x;
    Horner(g.coef, u) / g.omega
  }

  /** `degree()`: numpy's Polynomial.degree is len(coef) - 1, with no trimming of zeros: the power
      of the last coefficient, even when that coefficient is zero. */
  function Degree(g: NormPoly): (d: int)
    ensures d == |g.coef| - 1
    ensures |g.coef| > 0 ==>
      0 <= d < |g.coef| && forall u :: PowerSum(g.coef, u) == PowerSum(g.coef[..d], u) + g.coef[d] * Pow(u, d)
  {
    |g.coef| - 1
  }

  /** `deriv()`: keeps omega and scales h's formal derivative by omega. */
  function Derivative(g: NormPoly): (d: NormPoly)
    requires Valid(g)
    ensures Valid(d) && d.omega == g.omega
    ensures Degree(d) == if Degree(g) == 0 then 0 else Degree(g) - 1
  {
    NormPoly(Scale(g.omega, Deriv(g.coef)), g.omega)
  }

  /** The derivative evaluates to h'(omega * x): the factor omega it carries cancels the division. */
  lemma DerivativeEval(g: NormPoly, x: real)
    requires Valid(g)
    ensures Eval(Derivative(g), x) == Horner(Deriv(g.coef), Inner(g, x))
  {
    var d := Derivative(g);
    var u := Inner(g, x);
    assert Inner(d, x) == u;
    HornerScale(g.omega, Deriv(g.coef), d.coef, u);
    EvalScaled(d, x, Horner(Deriv(g.coef), u));
  }

  /** A polynomial whose value at omega * x is omega * h evaluates to h. */
  lemma EvalScaled(d: NormPoly, x: real, h: real)
    requires d.omega != 0.0 && Horner(d.coef, Inner(d, x)) == d.omega * h
    ensures Eval(d, x) == h
  {
  }

  /** The slope of g between x and y. */
  function Slope(g: NormPoly, x: real, y: real): real
  {
    Secant(g.coef, Inner(g, x), Inner(g, y))
  }

  /** `deriv()` is the derivative of g: g(x) - g(y) == (x - y) * Slope(g, x, y), and the slope at a
      double point is g'(x) = h'(omega * x). */
  lemma DerivativeIsSlope(g: NormPoly, x: real, y: real)
    requires Valid(g)
    ensures Eval(g, x) - Eval(g, y) == (x - y) * Slope(g, x, y)
    ensures Slope(g, x, x) == Eval(Derivative(g), x)
  {
    SlopeFactor(g, x, y);
    SlopeAtPoint(g, x);
  }

  lemma SlopeFactor(g: NormPoly, x: real, y: real)
    requires Valid(g)
    ensures Eval(g, x) - Eval(g, y) == (x - y) * Slope(g, x, y)
  {
    SecantFactor(g.coef, Inner(g, x), Inner(g, y));
    DivideSecant(Horner(g.coef, Inner(g, x)), Horner(g.coef, Inner(g, y)), g.omega, x, y, Slope(g, x, y));
  }

  lemma SlopeAtPoint(g: NormPoly, x: real)
    requires Valid(g)
    ensures Slope(g, x, x) == Eval(Derivative(g), x)
  {
    SecantAtPoint(g.coef, Inner(g, x));
    DerivativeEval(g, x);
  }

  /** The curvature polynomial of one page, built as `NormPoly(np.concatenate([[0], a_m]), OMEGA)`:
      its constant term is forced to zero, so g(0) == 0, and its degree is the number of free
      coefficients. */
  function ZeroConstant(a: seq<real>, omega: real): (g: NormPoly)
    requires omega != 0.0
    ensures Valid(g) && g.omega == omega
    ensures g.coef[0] == 0.0 && g.coef[1..] == a
    ensures Degree(g) == |a|
    ensures Eval(g, 0.0) == 0.0
  {
    var g := NormPoly([0.0] + a, omega);
    assert Horner(g.coef, 0.0) == 0.0 + 0.0 * Horner(a, 0.0);
    g
  }
}
