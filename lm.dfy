/** The hand-rolled Levenberg–Marquardt loop `lm` of rebook/dewarp.py. The residual function
    and the damped Gauss–Newton step (the linear solve against the Jacobian at the current point)
    are parameters; what is modelled is the controller: which candidates are taken, how the
    damping lam moves and when the loop stops. */
module LM {
  const LAM_UP: real := 1.2
  const LAM_DOWN: real := 4.0
  /** The damping the loop starts from. */
  const LAM_START: real := 100.0
  /** Raising lam to this value or above stops the loop. */
  const LAM_MAX: real := 1000.0
  /** A cost below this stops the loop. */
  const COST_SMALL: real := 0.000001
  /** The defaults of `ftol` and `max_nfev`. */
  const FTOL: real := 0.000001
  const MAX_NFEV: nat := 10000

  function Dot(a: seq<real>, b: seq<real>): real
    requires |a| == |b|
  {
    if |a| == 0 then 0.0 else Dot(a[..|a| - 1], b[..|b| - 1]) + a[|a| - 1] * b[|b| - 1]
  }

  /** `dot(r, r) / 2`: half the squared norm of the residuals, never negative. */
  function Cost(r: seq<real>): (c: real)
    ensures c >= 0.0
  {
    SquaresNonneg(r);
    Dot(r, r) / 2.0
  }

  lemma {:induction false} SquaresNonneg(r: seq<real>)
    ensures Dot(r, r) >= 0.0
  {
    if |r| > 0 {
      SquaresNonneg(r[..|r| - 1]);
    }
  }

  function Abs(a: real): real
  {
    if a < 0.0 then -a else a
  }

  /** Element-wise product and quotient, as numpy does on equal shapes. */
  function Times(a: seq<real>, b: seq<real>): (r: seq<real>)
    requires |a| == |b|
    ensures |r| == |a|
  {
    seq(|a|, i requires 0 <= i < |a| => a[i] * b[i])
  }

  function Over(a: seq<real>, b: seq<real>): (r: seq<real>)
    requires |a| == |b| && forall i :: 0 <= i < |b| ==> b[i] != 0.0
    ensures |r| == |a|
  {
    seq(|a|, i requires 0 <= i < |a| => a[i] / b[i])
  }

  /** What `lm` is given: the residual function `fun`; the candidate `xs - solve(JsTJs + lam * I, dC)`
      for the Jacobian taken at x, as a function of x, xs and lam; the scale; and `ftol`. */
  datatype Problem = Problem(
    fun: seq<real> -> seq<real>,
    step: (seq<real>, seq<real>, real) -> seq<real>,
    scale: seq<real>,
    ftol: real)

  /** The problem `lm(fun, x0, jac)` solves when `ftol` and `x_scale` are not passed: ftol 1e-6
      and a scale of ones, which meets the non-zero scale `Minimize` asks for. */
  function Defaults(fun: seq<real> -> seq<real>, step: (seq<real>, seq<real>, real) -> seq<real>, n: nat): (p: Problem)
    ensures p.fun == fun && p.step == step && p.ftol == FTOL
    ensures |p.scale| == n && forall i :: 0 <= i < n ==> p.scale[i] != 0.0
  {
    Problem(fun, step, Ones(n), FTOL)
  }

  /** `np.ones(x0.shape[0])` when no `x_scale` is passed. */
  function Ones(n: nat): (s: seq<real>)
    ensures |s| == n && forall i :: 0 <= i < n ==> s[i] == 1.0
  {
    seq(n, i => 1.0)
  }

  /** The loop's variables: the scaled point xs, the point x, its residuals r, its cost C, and lam. */
  datatype State = State(xs: seq<real>, x: seq<real>, r: seq<real>, c: real, lam: real)

  /** After one candidate: go on with the next iteration, or break out of the loop. */
  datatype Outcome = Go(s: State) | Halt(s: State)

  /** The state agrees with the problem: r and C are those of x, and x is xs times the scale. */
  ghost predicate Consistent(p: Problem, s: State)
  {
    && |s.xs| == |p.scale|
    && s.x == Times(s.xs, p.scale)
    && s.r == p.fun(s.x)
    && s.c == Cost(s.r)
  }

  /** One pass of the loop body. */
  function Trial(p: Problem, s: State): (o: Outcome)
    requires |p.step(s.x, s.xs, s.lam)| == |p.scale|
    ensures o.s.c <= s.c
    ensures o.s.c == s.c || o.s.xs == p.step(s.x, s.xs, s.lam)
  {
    var xsNew := p.step(s.x, s.xs, s.lam);
    var xNew := Times(xsNew, p.scale);
    var rNew := p.fun(xNew);
    var cNew := Cost(rNew);
    if cNew >= s.c then
      var lam := s.lam * LAM_UP;
      if lam >= LAM_MAX then Halt(s.(lam := lam)) else Go(s.(lam := lam))
    else if Abs(s.c - cNew) / s.c <= p.ftol then Halt(s)
    else
      var taken := State(xsNew, Times(xsNew, p.scale), rNew, cNew, s.lam);
      if cNew < COST_SMALL then Halt(taken) else Go(taken.(lam := s.lam / LAM_DOWN))
  }

  /** Every candidate the step function proposes has the shape of the scale. */
  ghost predicate StepShaped(p: Problem)
  {
    forall x, xs, lam :: |p.step(x, xs, lam)| == |p.scale|
  }

  /** The loop with n iterations left. */
  function Run(p: Problem, s: State, n: nat): (t: State)
    requires StepShaped(p)
    ensures t.c <= s.c
    decreases n
  {
    if n == 0 then s
    else match Trial(p, s)
      case Halt(t) => t
      case Go(t) => Run(p, t, n - 1)
  }

  /** What one pass does, case by case, with C_new the cost of the step's candidate:
      - C_new >= C: lam grows by LAM_UP and the point stays; the loop stops once lam reaches 1000;
      - otherwise, a relative improvement of at most ftol stops the loop with the state unchanged;
      - otherwise the candidate is taken; a cost below 1e-6 stops the loop with lam as it was,
        and any other cost goes on with lam divided by LAM_DOWN. */
  lemma TrialCases(p: Problem, s: State)
    requires |p.step(s.x, s.xs, s.lam)| == |p.scale|
    ensures var xsNew := p.step(s.x, s.xs, s.lam);
      var rNew := p.fun(Times(xsNew, p.scale));
      var cNew := Cost(rNew);
      var taken := State(xsNew, Times(xsNew, p.scale), rNew, cNew, s.lam);
      && (cNew >= s.c && s.lam * LAM_UP >= LAM_MAX ==> Trial(p, s) == Halt(s.(lam := s.lam * LAM_UP)))
      && (cNew >= s.c && s.lam * LAM_UP < LAM_MAX ==> Trial(p, s) == Go(s.(lam := s.lam * LAM_UP)))
      && (cNew < s.c && Abs(s.c - cNew) / s.c <= p.ftol ==> Trial(p, s) == Halt(s))
      && (cNew < s.c && Abs(s.c - cNew) / s.c > p.ftol && cNew < COST_SMALL ==> Trial(p, s) == Halt(taken))
      && (cNew < s.c && Abs(s.c - cNew) / s.c > p.ftol && cNew >= COST_SMALL ==>
            Trial(p, s) == Go(taken.(lam := s.lam / LAM_DOWN)))
  {
  }

  /** A rejected candidate (no lower cost) changes lam alone, multiplying it by 1.2. */
  lemma RejectOnlyLam(p: Problem, s: State)
    requires |p.step(s.x, s.xs, s.lam)| == |p.scale|
    requires Cost(p.fun(Times(p.step(s.x, s.xs, s.lam), p.scale))) >= s.c
    ensures Trial(p, s).s == s.(lam := s.lam * LAM_UP)
  {
  }

  /** A candidate is adopted only when its cost is lower and its relative improvement beats
      ftol; otherwise the point, residuals and cost stay. */
  lemma AdoptOnlyBetter(p: Problem, s: State)
    requires |p.step(s.x, s.xs, s.lam)| == |p.scale| && Consistent(p, s)
    ensures var t := Trial(p, s).s;
      t.x != s.x ==> t.c < s.c && Abs(s.c - t.c) / s.c > p.ftol
    ensures var t := Trial(p, s).s;
      (t.xs, t.x, t.r, t.c) == (s.xs, s.x, s.r, s.c) ||
      (t.c < s.c && Abs(s.c - t.c) / s.c > p.ftol && t.xs == p.step(s.x, s.xs, s.lam))
  {
  }

  /** The loop body keeps the state consistent, never raises the cost, and keeps lam in (0, 1000)
      whenever it goes on. */
  lemma TrialKeeps(p: Problem, s: State)
    requires |p.step(s.x, s.xs, s.lam)| == |p.scale| && Consistent(p, s)
    requires 0.0 < s.lam < LAM_MAX
    ensures Consistent(p, Trial(p, s).s) && Trial(p, s).s.c <= s.c
    ensures Trial(p, s).Go? ==> 0.0 < Trial(p, s).s.lam < LAM_MAX
  {
  }

  /** The returned point is never worse than the start, and the state stays consistent. */
  lemma {:induction false} RunNeverWorse(p: Problem, s: State, n: nat)
    requires StepShaped(p) && Consistent(p, s) && 0.0 < s.lam < LAM_MAX
    ensures Consistent(p, Run(p, s, n)) && Run(p, s, n).c <= s.c
    decreases n
  {
    if n > 0 {
      TrialKeeps(p, s);
      if Trial(p, s).Go? {
        RunNeverWorse(p, Trial(p, s).s, n - 1);
      }
    }
  }

  /** The state `lm` enters the loop with. */
  function Start(p: Problem, x0: seq<real>): (s: State)
    requires |x0| == |p.scale| && forall i :: 0 <= i < |p.scale| ==> p.scale[i] != 0.0
    ensures s.x == x0 && s.lam == LAM_START
  {
    var r := p.fun(x0);
    State(Over(x0, p.scale), x0, r, Cost(r), LAM_START)
  }

  lemma StartConsistent(p: Problem, x0: seq<real>)
    requires |x0| == |p.scale| && forall i :: 0 <= i < |p.scale| ==> p.scale[i] != 0.0
    ensures Consistent(p, Start(p, x0))
  {
    var xs := Over(x0, p.scale);
    forall i | 0 <= i < |x0|
      ensures Times(xs, p.scale)[i] == x0[i]
    {
      Unscale(x0[i], p.scale[i]);
    }
    assert Times(xs, p.scale) == x0;
  }

  lemma Unscale(a: real, b: real)
    requires b != 0.0
    ensures a / b * b == a
  {
  }

  /** The cost of what `lm` returns is at most the cost of x0. */
  lemma NeverWorse(p: Problem, x0: seq<real>, maxNfev: nat)
    requires StepShaped(p) && |x0| == |p.scale| && forall i :: 0 <= i < |p.scale| ==> p.scale[i] != 0.0
    ensures Cost(p.fun(Run(p, Start(p, x0), maxNfev).x)) <= Cost(p.fun(x0))
  {
    StartConsistent(p, x0);
    RunNeverWorse(p, Start(p, x0), maxNfev);
  }

  /** `lm(fun, x0, jac, ftol=ftol, max_nfev=maxNfev, x_scale=scale)`: at most maxNfev candidate
      evaluations, lam in (0, 1000) at the top of every iteration, and C > 0 wherever the relative
      improvement divides by it. */
  method Minimize(p: Problem, x0: seq<real>, maxNfev: nat := MAX_NFEV) returns (x: seq<real>, ghost nfev: nat)
    requires StepShaped(p) && |x0| == |p.scale| && forall i :: 0 <= i < |p.scale| ==> p.scale[i] != 0.0
    ensures x == Run(p, Start(p, x0), maxNfev).x
    ensures nfev <= maxNfev
  {
    x := x0;
    var xs := Over(x, p.scale);
    var lam := LAM_START;
    var r := p.fun(x);
    var c := Cost(r);
    nfev := 0;
    ghost var start := State(xs, x, r, c, lam);
    for i := 0 to maxNfev
      invariant nfev == i && 0.0 < lam < LAM_MAX
      invariant Run(p, start, maxNfev) == Run(p, State(xs, x, r, c, lam), maxNfev - i)
    {
      ghost var s := State(xs, x, r, c, lam);
      var xsNew := p.step(x, xs, lam);
      var xNew := Times(xsNew, p.scale);
      var rNew := p.fun(xNew);
      var cNew := Cost(rNew);
      nfev := nfev + 1;
      if cNew >= c {
        lam := lam * LAM_UP;
        assert Trial(p, s).s == State(xs, x, r, c, lam);
        if lam >= LAM_MAX {
          break;
        }
        continue;
      }
      assert c > 0.0;
      var relativeErr := Abs(c - cNew) / c;
      if relativeErr <= p.ftol {
        assert Trial(p, s) == Halt(s);
        break;
      }
      xs := xsNew;
      x := Times(xs, p.scale);
      r := rNew;
      c := cNew;
      if c < COST_SMALL {
        assert Trial(p, s) == Halt(State(xs, x, r, c, lam));
        break;
      }
      lam := lam / LAM_DOWN;
      assert Trial(p, s) == Go(State(xs, x, r, c, lam));
    }
  }
}
