/** examples/tcp/dctcp-example.cc, PrintFairness: Jain's index of n byte counters, in 64-bit unsigned
    arithmetic up to the final division. */
module Fairness {
  import opened Collections
  import opened MachineInts

  function SumSquares(xs: seq<nat>): nat {
    if xs == [] then 0 else SumSquares(xs[..|xs| - 1]) + xs[|xs| - 1] * xs[|xs| - 1]
  }

  ghost predicate AllEqual(xs: seq<nat>) {
    forall i, j :: 0 <= i < |xs| && 0 <= j < |xs| ==> xs[i] == xs[j]
  }

  /** The numerator and the denominator of the printed index, as the machine computes them. */
  method Index(rxBytes: seq<nat>) returns (squareOfSum: nat, scaledSquares: nat)
    ensures squareOfSum == (Sum(rxBytes) % U64) * (Sum(rxBytes) % U64) % U64
    ensures scaledSquares == |rxBytes| * (SumSquares(rxBytes) % U64) % U64
  {
    var sum, sumSquares := 0, 0;
    for i := 0 to |rxBytes|
      invariant sum == Sum(rxBytes[..i]) % U64 && sumSquares == SumSquares(rxBytes[..i]) % U64
    {
      assert rxBytes[..i + 1][..i] == rxBytes[..i];
      AddMod(Sum(rxBytes[..i]), rxBytes[i]);
      AddMod(SumSquares(rxBytes[..i]), rxBytes[i] * rxBytes[i]);
      sum := (sum + rxBytes[i]) % U64;
      sumSquares := (sumSquares + rxBytes[i] * rxBytes[i] % U64) % U64;
    }
    assert rxBytes[..|rxBytes|] == rxBytes;
    squareOfSum := sum * sum % U64;
    scaledSquares := |rxBytes| * sumSquares % U64;
  }

  /** Sum over x of (xs[i] - x)^2, which is what separates the two sides of the inequality. */
  function Spread(xs: seq<nat>, x: int): nat {
    if xs == [] then 0
    else
      var d := xs[|xs| - 1] - x;
      SquareNotNegative(d);
      Spread(xs[..|xs| - 1], x) + d * d
  }

  lemma SquareNotNegative(d: int)
    ensures d * d >= 0
    ensures d * d == 0 ==> d == 0
  {
  }

  lemma AddTerm(q: int, s: int, n: int, x: int, y: int)
    ensures (q - 2 * x * s + n * x * x) + (y - x) * (y - x) == (q + y * y) - 2 * x * (s + y) + (n + 1) * x * x
  {
  }

  lemma {:induction false} SpreadExpands(xs: seq<nat>, x: int)
    ensures Spread(xs, x) == SumSquares(xs) - 2 * x * Sum(xs) + |xs| * x * x
  {
    if xs != [] {
      var front, y := xs[..|xs| - 1], xs[|xs| - 1];
      SpreadExpands(front, x);
      AddTerm(SumSquares(front), Sum(front), |front|, x, y);
    }
  }

  lemma {:induction false} SpreadZero(xs: seq<nat>, x: int)
    ensures Spread(xs, x) == 0 <==> forall i :: 0 <= i < |xs| ==> xs[i] == x
  {
    if xs != [] {
      SpreadZero(xs[..|xs| - 1], x);
      SquareNotNegative(xs[|xs| - 1] - x);
    }
  }

  lemma OneMore(n: int, q: int, s: int, y: int)
    ensures (n + 1) * (q + y * y) - (s + y) * (s + y) == (n * q - s * s) + (q - 2 * y * s + n * y * y)
  {
  }

  /** The square of the sum is at most n times the sum of squares, with equality exactly for equal
      counters. */
  lemma {:induction false} SquareOfSum(xs: seq<nat>)
    ensures Sum(xs) * Sum(xs) <= |xs| * SumSquares(xs)
    ensures Sum(xs) * Sum(xs) == |xs| * SumSquares(xs) <==> AllEqual(xs)
  {
    if xs != [] {
      var front, y := xs[..|xs| - 1], xs[|xs| - 1];
      SquareOfSum(front);
      SpreadExpands(front, y);
      SpreadZero(front, y);
      OneMore(|front|, SumSquares(front), Sum(front), y);
      Combine(|xs| * SumSquares(xs) - Sum(xs) * Sum(xs), |front| * SumSquares(front) - Sum(front) * Sum(front),
        Spread(front, y));
      assert AllEqual(xs) <==> forall i :: 0 <= i < |front| ==> front[i] == y by {
        if forall i :: 0 <= i < |front| ==> front[i] == y {
        } else {
          var i :| 0 <= i < |front| && front[i] != y;
          assert xs[i] != xs[|xs| - 1];
        }
      }
      assert AllEqual(xs) ==> AllEqual(front);
    }
  }

  lemma Combine(total: int, a: int, b: int)
    requires total == a + b && a >= 0 && b >= 0
    ensures total >= 0 && (total == 0 <==> a == 0 && b == 0)
  {
  }

  lemma {:induction false} SquaresBelowSquare(xs: seq<nat>)
    ensures SumSquares(xs) <= Sum(xs) * Sum(xs)
    ensures SumSquares(xs) == 0 <==> forall i :: 0 <= i < |xs| ==> xs[i] == 0
  {
    if xs != [] {
      var front, y := xs[..|xs| - 1], xs[|xs| - 1];
      SquaresBelowSquare(front);
      SquareNotNegative(y);
      var s := Sum(front);
      assert (s + y) * (s + y) == s * s + 2 * (s * y) + y * y;
      assert s * y >= 0;
    }
  }

  lemma {:induction false} SumBound(xs: seq<nat>, m: nat)
    requires forall i :: 0 <= i < |xs| ==> xs[i] <= m
    ensures Sum(xs) <= |xs| * m
  {
    if xs != [] {
      SumBound(xs[..|xs| - 1], m);
      assert |xs| * m == (|xs| - 1) * m + m;
    }
  }

  /** No product wraps while n times the largest counter stays below 2^32. */
  lemma NoWrap(xs: seq<nat>, m: nat)
    requires xs != [] && (forall i :: 0 <= i < |xs| ==> xs[i] <= m) && |xs| * m < 0x1_0000_0000
    ensures (Sum(xs) % U64) * (Sum(xs) % U64) % U64 == Sum(xs) * Sum(xs)
    ensures |xs| * (SumSquares(xs) % U64) % U64 == |xs| * SumSquares(xs)
  {
    SumBound(xs, m);
    SquaresBound(xs, m);
    SmallProducts(|xs|, m, Sum(xs), SumSquares(xs));
  }

  lemma SmallProducts(n: nat, m: nat, s: nat, q: nat)
    requires n >= 1 && n * m < 0x1_0000_0000 && s <= n * m && q <= n * m * m
    ensures s * s < U64 && n * q < U64 && q < U64
  {
    Product(s, s, 0x1_0000_0000);
    Product(n * m, n * m, 0x1_0000_0000);
    var bound := n * m * m;
    Regroup(n, m);
    Scale(n, q, bound);
    Enlarge(n, q);
  }

  lemma Regroup(n: nat, m: nat)
    ensures n * (n * m * m) == (n * m) * (n * m)
  {
  }

  lemma Enlarge(n: nat, q: nat)
    requires n >= 1
    ensures n * q >= q
  {
  }

  lemma {:induction false} SquaresBound(xs: seq<nat>, m: nat)
    requires forall i :: 0 <= i < |xs| ==> xs[i] <= m
    ensures SumSquares(xs) <= |xs| * m * m
  {
    if xs != [] {
      SquaresBound(xs[..|xs| - 1], m);
      Product2(xs[|xs| - 1], m);
      assert |xs| * m * m == (|xs| - 1) * m * m + m * m;
    }
  }

  lemma Product(a: nat, b: nat, bound: nat)
    requires a < bound && b < bound
    ensures a * b < bound * bound
  {
    assert a * b <= a * bound;
    assert a * bound < bound * bound;
  }

  lemma Product2(a: nat, m: nat)
    requires a <= m
    ensures a * a <= m * m
  {
    assert a * a <= a * m;
    assert a * m <= m * m;
  }

  lemma Scale(n: nat, a: nat, b: nat)
    requires a <= b
    ensures n * a <= n * b
  {
  }

  /** The printed index is between 1/n and 1, and 1 exactly when all counters are equal. */
  lemma IndexInRange(xs: seq<nat>)
    requires exists i :: 0 <= i < |xs| && xs[i] != 0
    ensures |xs| * SumSquares(xs) > 0
    ensures var index := (Sum(xs) * Sum(xs)) as real / (|xs| * SumSquares(xs)) as real;
      && 1.0 / |xs| as real <= index <= 1.0
      && (index == 1.0 <==> AllEqual(xs))
  {
    SquareOfSum(xs);
    SquaresBelowSquare(xs);
    var n, s2, q := |xs|, Sum(xs) * Sum(xs), SumSquares(xs);
    assert n * q >= q > 0;
    Quotient(s2, n * q);
    OverN(n, q, s2);
  }

  lemma Quotient(a: nat, b: nat)
    requires 0 < b && a <= b
    ensures a as real / b as real <= 1.0
    ensures a as real / b as real == 1.0 <==> a == b
  {
    var r := a as real / b as real;
    assert r * b as real == a as real;
  }

  lemma OverN(n: nat, q: nat, s2: nat)
    requires n > 0 && 0 < q <= s2 && n * q > 0
    ensures 1.0 / n as real <= s2 as real / (n * q) as real
  {
    var x, y := n as real, q as real;
    assert (n * q) as real == x * y;
    assert 1.0 / x == y / (x * y);
    assert y / (x * y) <= s2 as real / (x * y);
  }
}
