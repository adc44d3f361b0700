/** The one-pass average and second moment of BenchSuite::Log, for one field of the results. */
module Welford {
  import opened Words

  function Sum(xs: seq<real>): real {
    if xs == [] then 0.0 else Sum(xs[..|xs| - 1]) + xs[|xs| - 1]
  }

  /** The sum of the squared distances from `c`. */
  function SumSquares(xs: seq<real>, c: real): real {
    if xs == [] then 0.0
    else SumSquares(xs[..|xs| - 1], c) + Square(xs[|xs| - 1] - c)
  }

  lemma Snoc(xs: seq<real>, x: real, c: real)
    ensures Sum(xs + [x]) == Sum(xs) + x
    ensures SumSquares(xs + [x], c) == SumSquares(xs, c) + Square(x - c)
  {
    assert (xs + [x])[..|xs|] == xs;
  }

  function Product(x: real, y: real): real {
    x * y
  }

  function Square(x: real): real {
    Product(x, x)
  }

  /** The sum of squares around `b`, from that around `a`, for `n` numbers with sum `s`. */
  function Moved(n: real, s: real, squares: real, a: real, b: real): real {
    squares + 2.0 * (a - b) * (s - n * a) + n * Square(a - b)
  }

  lemma MovedOneMore(n: real, s: real, squares: real, a: real, b: real, x: real)
    ensures Moved(n, s, squares, a, b) + Square(x - b) == Moved(n + 1.0, s + x, squares + Square(x - a), a, b)
  {
  }

  /** Moving the centre from `a` to `b`. */
  lemma {:induction false} MoveCentre(xs: seq<real>, n: real, a: real, b: real)
    requires n == |xs| as real
    ensures SumSquares(xs, b) == Moved(n, Sum(xs), SumSquares(xs, a), a, b)
  {
    if xs != [] {
      var f, x := xs[..|xs| - 1], xs[|xs| - 1];
      MoveCentre(f, n - 1.0, a, b);
      MovedOneMore(n - 1.0, Sum(f), SumSquares(f, a), a, b, x);
    }
  }

  /** The new average, and by how much the second moment grows. */
  lemma Rearrange(n: real, s: real, squares: real, a: real, b: real, d: real, x: real)
    requires s == Product(n, a) && b == a + d && Product(n + 1.0, d) == x - a
    ensures s + x == Product(n + 1.0, b)
    ensures Moved(n, s, squares, a, b) + Square(x - b) == squares + Product(x - a, x - b)
  {
    assert s - n * a == 0.0;
    assert a - b == -d && x - b == n * d;
    assert Square(a - b) == d * d;
    assert Square(x - b) == n * (n * (d * d)) by {
      ProductSquare(n, d);
    }
    assert (x - a) * (x - b) == n * (d * d) + n * (n * (d * d)) by {
      assert x - a == n * d + d;
      ProductSquare(n, d);
      Factor(n * d, d);
    }
  }

  lemma ProductSquare(n: real, d: real)
    ensures (n * d) * (n * d) == n * (n * (d * d))
    ensures (n * d) * d == n * (d * d)
  {
  }

  lemma Factor(p: real, d: real)
    ensures (p + d) * p == p * p + p * d
  {
  }

  lemma Quotient(x: real, n: real)
    requires n > 0.0
    ensures n * (x / n) == x
  {
  }

  /** One accumulation, where the average moves from `a` by `d` to `b`. */
  lemma OneMore(xs: seq<real>, n: real, x: real, a: real, b: real, d: real)
    requires n == |xs| as real && Sum(xs) == Product(n, a) && b == a + d && Product(n + 1.0, d) == x - a
    ensures Sum(xs + [x]) == Product(n + 1.0, b)
    ensures SumSquares(xs + [x], b) == SumSquares(xs, a) + Product(x - a, x - b)
  {
    Rearrange(n, Sum(xs), SumSquares(xs, a), a, b, d, x);
    Snoc(xs, x, b);
    MoveCentre(xs, n, a, b);
  }

  /** `average` and `moment2` are the average of `xs` and its sum of squares around that average. */
  ghost predicate Exact(xs: seq<real>, average: real, moment2: real) {
    Sum(xs) == Product(|xs| as real, average) && moment2 == SumSquares(xs, average)
  }

  /** The macro ACCUMULATE, for the sample `x` that follows `xs`. */
  method Accumulate(ghost xs: seq<real>, x: real, count: nat, average: real, moment2: real)
    returns (newAverage: real, newMoment2: real)
    requires count == |xs| + 1 && Exact(xs, average, moment2)
    ensures Exact(xs + [x], newAverage, newMoment2)
  {
    var deltaPre := x - average;
    var step := deltaPre / count as real;
    newAverage := average + step;
    var deltaPost := x - newAverage;
    newMoment2 := moment2 + Product(deltaPre, deltaPost);
    Quotient(deltaPre, count as real);
    OneMore(xs, |xs| as real, x, average, newAverage, step);
  }

  /**
   The average and the second moment, or nothing for fewer than two results.  The loop starts from the
   first result and processes that result again; both figures come out exact.
   */
  method Log(results: seq<real>) returns (stats: Option<(real, real)>)
    ensures stats.None? <==> |results| < 2
    ensures stats.Some? ==> Exact(results, stats.value.0, stats.value.1)
  {
    if |results| < 2 {
      return None;
    }
    var average, moment2 := results[0], 0.0;
    var n := 0;
    while n < |results|
      invariant 0 <= n <= |results|
      invariant Exact(results[..n], average, moment2)
    {
      assert results[..n] + [results[n]] == results[..n + 1];
      average, moment2 := Accumulate(results[..n], results[n], n + 1, average, moment2);
      n := n + 1;
    }
    assert results[..n] == results;
    stats := Some((average, moment2));
  }

  /** The average is the sum divided by the number of samples. */
  lemma ExactAverage(xs: seq<real>, average: real, moment2: real)
    requires xs != [] && Exact(xs, average, moment2)
    ensures average == Sum(xs) / |xs| as real
  {
    DivideBack(average, |xs| as real, Sum(xs));
  }

  lemma DivideBack(a: real, n: real, s: real)
    requires n > 0.0 && s == Product(n, a)
    ensures a == s / n
  {
  }

  /** The average is the centre with the least sum of squares. */
  lemma AverageIsBestCentre(xs: seq<real>, average: real, moment2: real, c: real)
    requires Exact(xs, average, moment2)
    ensures moment2 <= SumSquares(xs, c)
  {
    MoveCentre(xs, |xs| as real, average, c);
    SpreadIsPositive(|xs| as real, Sum(xs), moment2, average, c);
  }

  lemma SpreadIsPositive(n: real, s: real, squares: real, a: real, c: real)
    requires n >= 0.0 && s == Product(n, a)
    ensures squares <= Moved(n, s, squares, a, c)
  {
    assert s - n * a == 0.0;
    assert Square(a - c) >= 0.0;
    assert n * Square(a - c) >= 0.0;
  }
}
