/**
 The constants a bounded RMS program is bound to, over the reals, and what the running
 total of the reducing loop amounts to when it starts at the literal the program loads.
 */
module RmsLiterals {
  import opened Machine
  import opened Dag
  import opened RmsProgram
  import opened RmsRun

  /** The bounds are those of elements, weights, normalized values and the log of the variance. */
  datatype RmsConfig = RmsConfig(
    width: U32, epsilon: real, inputBound: real, weightBound: real, normalizedBound: real, logVarianceBound: real)
  {
    predicate Valid() {
      width > 0 && epsilon > 0.0 && inputBound > 0.0 && weightBound > 0.0 && normalizedBound > 0.0 && logVarianceBound > 0.0
    }
  }

  /** `fixed_literals`. */
  function FixedLiterals(c: RmsConfig): (literals: seq<real>)
    requires c.Valid()
    ensures |literals| == 17
  {
    var m, w, k, l := c.inputBound, c.weightBound, c.normalizedBound, c.logVarianceBound;
    [64.0, 2.0, 2.0 * m, 1.0 / m, c.width as real * (c.epsilon / Square(m)), 1.0 / c.width as real, 0.5, l, 2.0 * l,
     1.0 / l, k, 2.0 * k, 1.0 / k, 2.0 * w, 1.0 / w, k * w, 2.0 * k * w]
  }

  function Square(m: real): (s: real)
    requires m > 0.0
    ensures s > 0.0
  {
    var s := m * m;
    assert s / m == m;
    s
  }

  function SumSquares(xs: seq<real>): real {
    if xs == [] then 0.0 else SumSquares(xs[..|xs| - 1]) + xs[|xs| - 1] * xs[|xs| - 1]
  }

  /** The reducing DAG adds the square of the scaled element to the total. */
  ghost predicate AddsSquares(a: Arith<real>, ctx: Context<real>, s: RmsStages, c: RmsConfig)
    requires s.Valid() && c.inputBound > 0.0
  {
    forall total: real, x: real ::
      Eval(a, s.reduce, OperandEnv(a, ctx, [total, x]), s.reduceRoot) == total + (x / c.inputBound) * (x / c.inputBound)
  }

  /** The pool begins with the configuration's literals. */
  ghost predicate Bound(ctx: Context<real>, c: RmsConfig)
    requires c.Valid()
  {
    |ctx.weights| >= 17 && ctx.weights[..17] == FixedLiterals(c)
  }

  lemma BoundLiterals(a: Arith<real>, ctx: Context<real>, c: RmsConfig)
    requires c.Valid() && Bound(ctx, c)
    ensures c.width as real > 0.0
    ensures GetConst(a, ctx, 4) == c.width as real * (c.epsilon / Square(c.inputBound))
    ensures GetConst(a, ctx, 5) == 1.0 / c.width as real
  {
    assert ctx.weights[4] == ctx.weights[..17][4] && ctx.weights[5] == ctx.weights[..17][5];
  }

  lemma TotalNext(a: Arith<real>, ctx: Context<real>, s: RmsStages, c: RmsConfig, xs: seq<real>, n: nat)
    requires s.Valid() && n <= |xs| && c.inputBound > 0.0 && AddsSquares(a, ctx, s, c)
    ensures Total(a, ctx, s, xs, 0) == GetConst(a, ctx, 4)
    ensures n > 0 ==>
              Total(a, ctx, s, xs, n) == Total(a, ctx, s, xs, n - 1) + (xs[n - 1] / c.inputBound) * (xs[n - 1] / c.inputBound)
  {
    hide Eval, OperandEnv;
  }

  lemma SumNext(xs: seq<real>, n: nat)
    requires n <= |xs|
    ensures SumSquares(xs[..0]) == 0.0
    ensures n > 0 ==> SumSquares(xs[..n]) == SumSquares(xs[..n - 1]) + xs[n - 1] * xs[n - 1]
  {
    if n > 0 {
      assert xs[..n][..n - 1] == xs[..n - 1];
    }
  }

  lemma {:induction false} TotalIsScaled(a: Arith<real>, ctx: Context<real>, s: RmsStages, c: RmsConfig, xs: seq<real>, n: nat)
    requires s.Valid() && c.Valid() && n <= |xs| && AddsSquares(a, ctx, s, c) && Bound(ctx, c)
    ensures Total(a, ctx, s, xs, n) == (SumSquares(xs[..n]) + c.width as real * c.epsilon) / Square(c.inputBound)
    decreases n
  {
    hide Square, Total, SumSquares, AddsSquares, Bound, FixedLiterals;
    BoundLiterals(a, ctx, c);
    TotalNext(a, ctx, s, c, xs, n);
    SumNext(xs, n);
    var weighted := c.width as real * c.epsilon;
    if n == 0 {
      TimesQuotient(c.width as real, c.epsilon, Square(c.inputBound));
      assert SumSquares(xs[..n]) + weighted == weighted;
    } else {
      TotalIsScaled(a, ctx, s, c, xs, n - 1);
      AddScaled(SumSquares(xs[..n - 1]), weighted, xs[n - 1], c.inputBound);
    }
  }

  lemma FinalTotal(a: Arith<real>, ctx: Context<real>, s: RmsStages, c: RmsConfig, xs: seq<real>)
    requires s.Valid() && c.Valid() && AddsSquares(a, ctx, s, c) && Bound(ctx, c)
    ensures Total(a, ctx, s, xs, |xs|) == (SumSquares(xs) + c.width as real * c.epsilon) / Square(c.inputBound)
  {
    hide Square, Total, SumSquares, AddsSquares, Bound;
    assert xs[..|xs|] == xs;
    TotalIsScaled(a, ctx, s, c, xs, |xs|);
  }

  lemma Cancel(p: real, d: real)
    requires d != 0.0
    ensures p * d / d == p
  {
  }

  lemma TimesQuotient(a: real, b: real, d: real)
    requires d != 0.0
    ensures a * (b / d) == a * b / d
  {
    var q := b / d;
    assert b == q * d;
    assert a * b == a * q * d;
    Cancel(a * q, d);
  }

  lemma AddScaled(sum: real, weighted: real, x: real, m: real)
    requires m > 0.0
    ensures (sum + weighted) / Square(m) + (x / m) * (x / m) == (sum + x * x + weighted) / Square(m)
  {
    hide Square;
    var q, d := x / m, Square(m);
    var r := (sum + weighted) / d;
    assert sum + weighted == r * d;
    SquareOfProduct(q, x, m);
    assert sum + x * x + weighted == (r + q * q) * d;
    Cancel(r + q * q, d);
  }

  lemma SquareOfProduct(q: real, x: real, m: real)
    requires m > 0.0 && q == x / m
    ensures x * x == q * q * Square(m)
  {
    assert x == q * m;
    assert (q * m) * (q * m) == q * q * (m * m);
  }

  /**
   Loading literal 4 is right: with a reducing DAG that adds scaled squares, the final total
   times literal 5 is the mean square plus epsilon, over the squared input bound.
   */
  lemma TotalIsMeanSquare(a: Arith<real>, ctx: Context<real>, s: RmsStages, c: RmsConfig, xs: seq<real>)
    requires s.Valid() && c.Valid() && |xs| == c.width && AddsSquares(a, ctx, s, c) && Bound(ctx, c)
    ensures GetConst(a, ctx, 5) * Total(a, ctx, s, xs, |xs|)
            == (SumSquares(xs) / c.width as real + c.epsilon) / Square(c.inputBound)
  {
    hide Square, Total, SumSquares, AddsSquares, Bound, FixedLiterals, GetConst;
    BoundLiterals(a, ctx, c);
    FinalTotal(a, ctx, s, c, xs);
    Scale(GetConst(a, ctx, 5), Total(a, ctx, s, xs, |xs|), c.width as real, SumSquares(xs), c.epsilon, Square(c.inputBound));
  }

  lemma Scale(inverse: real, total: real, w: real, sum: real, e: real, d: real)
    requires w > 0.0 && d > 0.0 && inverse == 1.0 / w && total == (sum + w * e) / d
    ensures inverse * total == (sum / w + e) / d
  {
    var q := sum / w;
    assert sum == q * w;
    var t := (q + e) / d;
    assert q + e == t * d;
    assert sum + w * e == w * (q + e) == w * t * d by {
      assert w * (t * d) == w * t * d;
    }
    Cancel(w * t, d);
    Inverse(w, t);
  }

  lemma Inverse(w: real, t: real)
    requires w != 0.0
    ensures 1.0 / w * (w * t) == t
  {
    var i := 1.0 / w;
    assert i * w == 1.0;
    assert i * (w * t) == i * w * t;
  }
}
