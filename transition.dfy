/** The SmoothLife transition function: nested sigmoids over exact reals.
    `expf` is not computed; it is a parameter `exp` about which only
    positivity is known (and, for individual lemmas, what they require). */
module Transition {

  /** Any real function that, like `expf`, only returns positive values. */
  type ExpFn = f: real -> real | forall x :: f(x) > 0.0 witness (x: real) => 1.0

  /** The simulation parameters the source keeps as globals: outer radius
      `ra`, sigmoid widths `alpha_n` and `alpha_m`, birth interval
      `b1`..`b2`, death interval `d1`..`d2` and the time step `dt`. The
      radius is integer-valued in this model. */
  datatype Params = Params(
    ra: int,
    alphaN: real,
    alphaM: real,
    b1: real,
    b2: real,
    d1: real,
    d2: real,
    dt: real)

  /** The constants the program is built with. */
  const Reference: Params := Params(11, 0.028, 0.147, 0.278, 0.365, 0.267, 0.445, 0.05)

  /** Both sigmoid widths are non-zero, so no sigmoid divides by zero, and the
      outer radius makes both neighbourhood rings non-empty (see
      `Convolution.RingsNonEmptyIff`). */
  predicate ValidParams(p: Params)
  {
    p.ra >= 2 && p.alphaN != 0.0 && p.alphaM != 0.0
  }

  /** `sigma(x, a, alpha)`: a smooth step centred at `a`. Whatever `exp`
      returns, the step lies strictly between 0 and 1. */
  function Sigma(exp: ExpFn, x: real, a: real, alpha: real): (r: real)
    requires alpha != 0.0
    ensures 0.0 < r < 1.0
  {
    var e := exp(StepArg(x, a, alpha));
    UnitReciprocal(e);
    1.0 / (1.0 + e)
  }

  /** The exponent `-(x - a) * 4 / alpha` of the step. */
  function StepArg(x: real, a: real, alpha: real): real
    requires alpha != 0.0
  {
    -(x - a) * 4.0 / alpha
  }

  /** `sigma_n(x, a, b)`: a smooth band between `a` and `b`, the product of a
      rising step at `a` and a falling step at `b`. It lies in (0,1) and
      below each of its two factors. */
  function SigmaN(exp: ExpFn, p: Params, x: real, a: real, b: real): (r: real)
    requires p.alphaN != 0.0
    ensures 0.0 < r < 1.0
    ensures r < Sigma(exp, x, a, p.alphaN)
    ensures r < 1.0 - Sigma(exp, x, b, p.alphaN)
  {
    var up := Sigma(exp, x, a, p.alphaN);
    var down := 1.0 - Sigma(exp, x, b, p.alphaN);
    UnitProduct(up, down);
    up * down
  }

  /** `sigma_m(x, y, m)`: a convex blend of `x` and `y`, weighted by a step
      in `m` at 0.5. It never leaves the interval between `x` and `y`, and
      lies strictly inside it when `x` and `y` differ. */
  function SigmaM(exp: ExpFn, p: Params, x: real, y: real, m: real): (r: real)
    requires p.alphaM != 0.0
    ensures x <= y ==> x <= r <= y
    ensures y <= x ==> y <= r <= x
    ensures x < y ==> x < r < y
    ensures y < x ==> y < r < x
  {
    var t := Sigma(exp, m, 0.5, p.alphaM);
    var r := x * (1.0 - t) + y * t;
    assert (x <= y ==> x <= r <= y) && (y <= x ==> y <= r <= x)
      && (x < y ==> x < r < y) && (y < x ==> y < r < x) by {
      ConvexBlend(x, y, t);
    }
    r
  }

  /** `s(n, m)`: the target state for outer filling `n` and inner filling
      `m`. The birth and death thresholds are blended by `m` before the band
      is applied to `n`; the result lies in (0,1). */
  function S(exp: ExpFn, p: Params, n: real, m: real): (r: real)
    requires p.alphaN != 0.0 && p.alphaM != 0.0
    ensures 0.0 < r < 1.0
  {
    SigmaN(exp, p, n, SigmaM(exp, p, p.b1, p.d1, m), SigmaM(exp, p, p.b2, p.d2, m))
  }

  /** With the program's constants the lower edge of the band stays in
      `[d1, b1]` and the upper edge in `[b2, d2]`, whatever the inner
      filling. */
  lemma ReferenceThresholds(exp: ExpFn, m: real)
    ensures ValidParams(Reference)
    ensures Reference.d1 <= SigmaM(exp, Reference, Reference.b1, Reference.d1, m) <= Reference.b1
    ensures Reference.b2 <= SigmaM(exp, Reference, Reference.b2, Reference.d2, m) <= Reference.d2
  {
  }

  /** The step is symmetric about its centre: when `exp(0) = 1`, it takes
      the value one half at `x = a`. */
  lemma SigmaMidpoint(exp: ExpFn, a: real, alpha: real)
    requires alpha != 0.0
    requires exp(0.0) == 1.0
    ensures Sigma(exp, a, a, alpha) == 0.5
  {
    assert StepArg(a, a, alpha) == 0.0;
  }

  ghost predicate Increasing(exp: ExpFn)
  {
    forall u, v :: u <= v ==> exp(u) <= exp(v)
  }

  lemma IncreasingAt(exp: ExpFn, u: real, v: real)
    requires Increasing(exp) && u <= v
    ensures exp(u) <= exp(v)
  {
  }

  /** For a positive width and an increasing `exp`, the step is
      non-decreasing in `x`. */
  lemma SigmaMonotone(exp: ExpFn, x1: real, x2: real, a: real, alpha: real)
    requires alpha > 0.0
    requires Increasing(exp)
    requires x1 <= x2
    ensures Sigma(exp, x1, a, alpha) <= Sigma(exp, x2, a, alpha)
  {
    var u1 := StepArg(x1, a, alpha);
    var u2 := StepArg(x2, a, alpha);
    StepArgAntitone(x1, x2, a, alpha);
    assert exp(u2) <= exp(u1) by {
      IncreasingAt(exp, u2, u1);
    }
    assert 1.0 / (1.0 + exp(u1)) <= 1.0 / (1.0 + exp(u2)) by {
      ReciprocalAntitone(1.0 + exp(u2), 1.0 + exp(u1));
    }
  }

  /** Outside the band `[a, b]` the band function is below one half: left of
      `a` the rising step has not reached one half, right of `b` the falling
      step has dropped past it. */
  lemma SigmaNOutsideBand(exp: ExpFn, p: Params, x: real, a: real, b: real)
    requires p.alphaN > 0.0
    requires Increasing(exp) && exp(0.0) == 1.0
    requires x <= a || b <= x
    ensures SigmaN(exp, p, x, a, b) < 0.5
  {
    if x <= a {
      assert Sigma(exp, x, a, p.alphaN) <= 0.5 by {
        SigmaMonotone(exp, x, a, a, p.alphaN);
        SigmaMidpoint(exp, a, p.alphaN);
      }
    } else {
      assert Sigma(exp, x, b, p.alphaN) >= 0.5 by {
        SigmaMonotone(exp, b, x, b, p.alphaN);
        SigmaMidpoint(exp, b, p.alphaN);
      }
    }
  }

  /** The target state is below one half whenever the outer filling `n` lies
      outside the band whose edges are the blended birth and death
      thresholds. */
  lemma SOutsideBand(exp: ExpFn, p: Params, n: real, m: real)
    requires p.alphaN > 0.0 && p.alphaM != 0.0
    requires Increasing(exp) && exp(0.0) == 1.0
    requires n <= SigmaM(exp, p, p.b1, p.d1, m) || SigmaM(exp, p, p.b2, p.d2, m) <= n
    ensures S(exp, p, n, m) < 0.5
  {
    SigmaNOutsideBand(exp, p, n, SigmaM(exp, p, p.b1, p.d1, m), SigmaM(exp, p, p.b2, p.d2, m));
  }

  /** With the program's constants, an outer filling of at most `d1` or at
      least `d2` gives a target state below one half, whatever the inner
      filling. */
  lemma ReferenceOutsideBand(exp: ExpFn, n: real, m: real)
    requires Increasing(exp) && exp(0.0) == 1.0
    requires n <= Reference.d1 || Reference.d2 <= n
    ensures S(exp, Reference, n, m) < 0.5
  {
    ReferenceThresholds(exp, m);
    SOutsideBand(exp, Reference, n, m);
  }

  lemma StepArgAntitone(x1: real, x2: real, a: real, alpha: real)
    requires alpha > 0.0 && x1 <= x2
    ensures StepArg(x2, a, alpha) <= StepArg(x1, a, alpha)
  {
    DivideMonotone(-(x2 - a) * 4.0, -(x1 - a) * 4.0, alpha);
  }

  lemma UnitReciprocal(e: real)
    requires e > 0.0
    ensures 0.0 < 1.0 / (1.0 + e) < 1.0
  {
    var r := 1.0 / (1.0 + e);
    assert r * (1.0 + e) == 1.0;
  }

  lemma UnitProduct(a: real, b: real)
    requires 0.0 < a < 1.0 && 0.0 < b < 1.0
    ensures 0.0 < a * b < a && a * b < b
  {
    assert a * (1.0 - b) > 0.0;
    assert b * (1.0 - a) > 0.0;
  }

  lemma ConvexBlend(x: real, y: real, t: real)
    requires 0.0 < t < 1.0
    ensures x <= y ==> x <= x * (1.0 - t) + y * t <= y
    ensures y <= x ==> y <= x * (1.0 - t) + y * t <= x
    ensures x < y ==> x < x * (1.0 - t) + y * t < y
    ensures y < x ==> y < x * (1.0 - t) + y * t < x
  {
    var r := x * (1.0 - t) + y * t;
    var d := y - x;
    assert r == x + d * t;
    assert r == y - d * (1.0 - t);
    if x < y {
      PositiveProduct(d, t);
      PositiveProduct(d, 1.0 - t);
    } else if y < x {
      PositiveProduct(-d, t);
      PositiveProduct(-d, 1.0 - t);
      assert d * t == -((-d) * t);
      assert d * (1.0 - t) == -((-d) * (1.0 - t));
    }
  }

  lemma PositiveProduct(a: real, b: real)
    requires a > 0.0 && b > 0.0
    ensures a * b > 0.0
  {
  }

  lemma DivideMonotone(p: real, q: real, d: real)
    requires d > 0.0 && p <= q
    ensures p / d <= q / d
  {
    assert q / d - p / d == (q - p) / d;
  }

  lemma ReciprocalAntitone(p: real, q: real)
    requires 0.0 < p <= q
    ensures 1.0 / q <= 1.0 / p
  {
    assert 1.0 / p - 1.0 / q == (q - p) / (p * q);
  }
}
