/**
 Streaming statistics of durations: count, sum, sum of squares, minimum and maximum.

 Durations are 32-bit integers.  A duration is squared as a 32-bit product before it is
 added to the sum of squares; the product is modelled with two's-complement wrap-around.
 Sums are exact.
 */
module DurationStats {

  const INT_MAX: int := 0x7fff_ffff
  const INT_MIN: int := -0x8000_0000

  predicate Fits(x: int) { INT_MIN <= x <= INT_MAX }

  function Wrap(x: int): (r: int)
    ensures Fits(r) && (Fits(x) <==> r == x)
  {
    (x + 0x8000_0000) % 0x1_0000_0000 - 0x8000_0000
  }

  /** The square as the program computes it. */
  function Square(d: int): int { Wrap(d * d) }

  /** The largest duration whose square fits. */
  const SAFE: int := 46340

  datatype Summary = Summary(count: nat, sum: int, sumSq: int, min: int, max: int) {
    function Add(d: int): Summary {
      Summary(count + 1, sum + d, sumSq + Square(d), if d < min then d else min, if d > max then d else max)
    }
  }

  const EMPTY := Summary(0, 0, 0, INT_MAX, INT_MIN)

  class Stats {
    ghost const owner: (string, string)  // the category and name these statistics are kept for
    var count: nat
    var sum: int
    var sumSq: int
    var min: int
    var max: int

    function Value(): Summary
      reads this
    {
      Summary(count, sum, sumSq, min, max)
    }

    constructor (ghost owner: (string, string))
      ensures Value() == EMPTY && this.owner == owner
    {
      this.owner := owner;
      count, sum, sumSq := 0, 0, 0;
      min, max := INT_MAX, INT_MIN;
    }

    method Add(dur: int)
      modifies this
      ensures Value() == old(Value()).Add(dur)
    {
      count := count + 1;
      sum := sum + dur;
      sumSq := sumSq + Square(dur);
      if dur < min { min := dur; }
      if dur > max { max := dur; }
    }
  }

  /** The statistics after adding `ds` in order. */
  function Fold(ds: seq<int>): Summary {
    if ds == [] then EMPTY else Fold(ds[..|ds| - 1]).Add(ds[|ds| - 1])
  }

  function Sum(ds: seq<int>): int {
    if ds == [] then 0 else Sum(ds[..|ds| - 1]) + ds[|ds| - 1]
  }

  function SumSquares(ds: seq<int>): int {
    if ds == [] then 0 else SumSquares(ds[..|ds| - 1]) + ds[|ds| - 1] * ds[|ds| - 1]
  }

  predicate Within(ds: seq<int>, bound: int) {
    forall i :: 0 <= i < |ds| ==> -bound <= ds[i] <= bound
  }

  predicate Safe(ds: seq<int>) { Within(ds, SAFE) }

  /** The computed square is the true square exactly up to 46340 in magnitude. */
  lemma SquareIsExactIff(d: int)
    ensures Square(d) == d * d <==> -SAFE <= d <= SAFE
  {
    var m := if d < 0 then -d else d;
    assert d * d == m * m;
    if m <= SAFE {
      ProductMonotone(m, SAFE);
    } else {
      ProductMonotone(SAFE + 1, m);
    }
  }

  lemma ProductMonotone(a: nat, b: nat)
    requires a <= b
    ensures a * a <= b * b
  {
    assert a * a <= a * b <= b * b;
  }

  /** All durations are 32-bit integers. */
  predicate AllFit(ds: seq<int>) {
    forall i :: 0 <= i < |ds| ==> Fits(ds[i])
  }

  /** For any 32-bit durations count, sum, minimum and maximum are what they say. */
  lemma {:induction false} FoldIs(ds: seq<int>)
    requires AllFit(ds)
    ensures Fold(ds).count == |ds| && Fold(ds).sum == Sum(ds)
    ensures forall i :: 0 <= i < |ds| ==> Fold(ds).min <= ds[i] <= Fold(ds).max
    ensures ds != [] ==> exists i :: 0 <= i < |ds| && ds[i] == Fold(ds).min
    ensures ds != [] ==> exists i :: 0 <= i < |ds| && ds[i] == Fold(ds).max
  {
    if ds != [] {
      var front, last := ds[..|ds| - 1], ds[|ds| - 1];
      FoldIs(front);
      if |front| > 0 {
        var i :| 0 <= i < |front| && front[i] == Fold(front).min;
        assert ds[i] == front[i];
        var j :| 0 <= j < |front| && front[j] == Fold(front).max;
        assert ds[j] == front[j];
      }
      assert ds[|ds| - 1] == last;
    }
  }

  /**
   A wrapped square falls short of the true one, never exceeds it, and shortfalls do not cancel:
   the sum of squares is exact exactly when every duration is safe.
   */
  lemma {:induction false} SumSqIsExactIff(ds: seq<int>)
    ensures Fold(ds).sumSq <= SumSquares(ds)
    ensures Fold(ds).sumSq == SumSquares(ds) <==> Safe(ds)
  {
    if ds != [] {
      var front, last := ds[..|ds| - 1], ds[|ds| - 1];
      SumSqIsExactIff(front);
      SquareIsExactIff(last);
      SquareFallsShort(last);
      assert Safe(ds) <==> Safe(front) && -SAFE <= last <= SAFE by {
        assert forall i :: 0 <= i < |front| ==> front[i] == ds[i];
      }
    }
  }

  lemma SquareFallsShort(d: int)
    ensures Square(d) <= d * d
  {
    SquareNonNegative(d);
    WrapFallsShort(d * d);
  }

  lemma WrapFallsShort(x: nat)
    ensures Wrap(x) <= x
  {
  }

  // ----- the variance -----

  lemma CauchyStep(n: int, s: int, q: int, d: int)
    requires n > 0 && n * q >= s * s
    ensures (n + 1) * (q + d * d) >= (s + d) * (s + d)
  {
    var r := q + n * (d * d) - 2 * (s * d);
    assert n * r == n * q - s * s + (s - n * d) * (s - n * d) by {
      assert (s - n * d) * (s - n * d) == s * s - 2 * (n * (s * d)) + n * (n * (d * d)) by {
        assert (n * d) * (n * d) == n * (n * (d * d));
        assert s * (n * d) == n * (s * d);
      }
      assert n * r == n * q + n * (n * (d * d)) - 2 * (n * (s * d));
    }
    SquareNonNegative(s - n * d);
    assert r >= 0 by { if r < 0 { NegativeProduct(n, r); } }
    assert (n + 1) * (q + d * d) - (s + d) * (s + d) == n * q - s * s + r;
  }

  lemma SquareNonNegative(x: int)
    ensures x * x >= 0
  {
  }

  lemma NegativeProduct(n: int, r: int)
    requires n > 0 && r < 0
    ensures n * r < 0
  {
  }

  /** count times the sum of squares is at least the square of the sum. */
  lemma {:induction false} Cauchy(ds: seq<int>)
    ensures |ds| * SumSquares(ds) >= Sum(ds) * Sum(ds)
  {
    if |ds| > 1 {
      var front := ds[..|ds| - 1];
      Cauchy(front);
      CauchyStep(|front|, Sum(front), SumSquares(front), ds[|ds| - 1]);
    } else if |ds| == 1 {
      assert ds[..0] == [];
      assert Sum(ds) == ds[0] && SumSquares(ds) == ds[0] * ds[0];
    }
  }

  lemma BetweenSquares(d: int, lo: int, hi: int)
    requires lo <= d <= hi
    ensures d * d <= (lo + hi) * d - lo * hi
  {
    assert (hi - d) * (d - lo) >= 0;
    assert (hi - d) * (d - lo) == (lo + hi) * d - lo * hi - d * d;
  }

  /** Here `a` and `b` are the sum and the product of bounds on the durations. */
  lemma {:induction false} SquaresBound(ds: seq<int>, lo: int, hi: int, a: int, b: int)
    requires forall i :: 0 <= i < |ds| ==> lo <= ds[i] <= hi
    requires a == lo + hi && b == lo * hi
    ensures SumSquares(ds) <= a * Sum(ds) - |ds| * b
  {
    if ds != [] {
      var front, d := ds[..|ds| - 1], ds[|ds| - 1];
      SquaresBound(front, lo, hi, a, b);
      BetweenSquares(d, lo, hi);
      SquaresStep(SumSquares(front), Sum(front), |front|, d, a, b);
    }
  }

  lemma SquaresStep(q: int, s: int, n: nat, d: int, a: int, b: int)
    requires q <= a * s - n * b && d * d <= a * d - b
    ensures q + d * d <= a * (s + d) - (n + 1) * b
  {
    assert a * (s + d) == a * s + a * d;
    assert (n + 1) * b == n * b + b;
  }

  lemma SpreadAlgebra(n: nat, s: int, q: int, lo: int, hi: int)
    requires q <= (lo + hi) * s - n * (lo * hi)
    ensures n * q - s * s <= (n * hi - s) * (s - n * lo)
    ensures 4 * ((n * hi - s) * (s - n * lo)) <= (n * (hi - lo)) * (n * (hi - lo))
  {
    var bound := (lo + hi) * s - n * (lo * hi);
    assert n * q <= n * bound;
    assert (n * hi - s) * (s - n * lo) == n * (hi * s) - (n * hi) * (n * lo) - s * s + n * (lo * s);
    assert (n * hi) * (n * lo) == n * (n * (lo * hi));
    assert n * bound == n * (hi * s) + n * (lo * s) - n * (n * (lo * hi)) by {
      assert (lo + hi) * s == lo * s + hi * s;
    }
    var a, b := n * hi - s, s - n * lo;
    assert n * (hi - lo) == a + b;
    SquareNonNegative(a - b);
    assert (a + b) * (a + b) - 4 * (a * b) == (a - b) * (a - b);
  }

  /**
   After adding any non-empty list of 32-bit durations, wrapped squares included,
   count*sumSq - sum^2 <= (count*max - sum)*(sum - count*min), which is at most a quarter of
   (count*(max - min))^2; up to 46340 in magnitude it is also never negative.
   */
  lemma VarianceBounds(ds: seq<int>)
    requires ds != [] && AllFit(ds)
    ensures var st := Fold(ds);
            var v := st.count * st.sumSq - st.sum * st.sum;
            && v <= (st.count * st.max - st.sum) * (st.sum - st.count * st.min)
            && 4 * v <= (st.count * (st.max - st.min)) * (st.count * (st.max - st.min))
            && (Safe(ds) ==> 0 <= v)
  {
    var st := Fold(ds);
    FoldIs(ds);
    SumSqIsExactIff(ds);
    Cauchy(ds);
    SquaresBound(ds, st.min, st.max, st.min + st.max, st.min * st.max);
    SpreadAlgebra(|ds|, Sum(ds), st.sumSq, st.min, st.max);
  }

  function Mean(st: Summary): real {
    if st.count == 0 then 0.0 else st.sum as real / st.count as real
  }

  /** The quantity under the square root of the standard deviation, in exact arithmetic. */
  function Radicand(st: Summary): real
    requires st.count > 0
  {
    st.sumSq as real / st.count as real - Mean(st) * Mean(st)
  }

  /** A standard deviation comes out: below two records it is zero, and no root is taken. */
  predicate HasDeviation(st: Summary) {
    st.count < 2 || Radicand(st) >= 0.0
  }

  /** Count times the mean is the sum; count squared times the radicand is count*sumSq - sum^2. */
  lemma RadicandIs(st: Summary)
    requires st.count > 0
    ensures st.count as real * Mean(st) == st.sum as real
    ensures (st.count * st.count) as real * Radicand(st) == (st.count * st.sumSq - st.sum * st.sum) as real
  {
    var n, s, q := st.count, st.sum, st.sumSq;
    var m, r, nr := s as real / n as real, q as real / n as real, n as real;
    assert m * nr == s as real && r * nr == q as real;
    assert (n * n) as real == nr * nr;
    assert (r - m * m) * (nr * nr) == (n * q - s * s) as real by {
      assert r * (nr * nr) == q as real * nr;
      assert (m * m) * (nr * nr) == (m * nr) * (m * nr);
      assert (n * q) as real == q as real * nr;
      assert (s * s) as real == s as real * s as real;
    }
  }

  /** So the radicand has the sign of count*sumSq - sum^2. */
  lemma RadicandSign(st: Summary)
    requires st.count > 0
    ensures Radicand(st) >= 0.0 <==> st.count * st.sumSq - st.sum * st.sum >= 0
  {
    RadicandIs(st);
    ProductSign(Radicand(st), (st.count * st.count) as real);
  }

  lemma ProductSign(x: real, y: real)
    requires y > 0.0
    ensures x * y >= 0.0 <==> x >= 0.0
  {
  }

  /** By how much the computed squares fall short of the true ones. */
  function Shortfall(ds: seq<int>): int {
    if ds == [] then 0 else
      var d := ds[|ds| - 1];
      Shortfall(ds[..|ds| - 1]) + (d * d - Square(d))
  }

  lemma {:induction false} SumSqFallsShort(ds: seq<int>)
    ensures Fold(ds).sumSq == SumSquares(ds) - Shortfall(ds)
    ensures Fold(ds).count == |ds| && Fold(ds).sum == Sum(ds)
  {
    if ds != [] {
      SumSqFallsShort(ds[..|ds| - 1]);
    }
  }

  lemma Distribute(n: int, q: int, f: int)
    ensures n * (q - f) == n * q - n * f
  {
  }

  /**
   A list of durations has a standard deviation exactly when it is shorter than two or its true
   spread makes up for the shortfall of its squares.
   */
  lemma HasDeviationIff(ds: seq<int>)
    ensures HasDeviation(Fold(ds)) <==>
            |ds| < 2 || |ds| * SumSquares(ds) - Sum(ds) * Sum(ds) >= |ds| * Shortfall(ds)
  {
    SumSqFallsShort(ds);
    if |ds| >= 2 {
      Distribute(|ds|, SumSquares(ds), Shortfall(ds));
      RadicandSign(Fold(ds));
    }
  }

  /** For durations up to 46340 in magnitude the radicand is never negative. */
  lemma RadicandNonNegative(ds: seq<int>)
    requires ds != [] && Safe(ds)
    ensures Fold(ds).count > 0 && Radicand(Fold(ds)) >= 0.0
  {
    SumSqFallsShort(ds);
    VarianceBounds(ds);
    RadicandSign(Fold(ds));
  }

  /** Beyond that it can be: two durations of 46341 overflow the squares. */
  lemma LongDurationsBreakRadicand()
    ensures !HasDeviation(Fold([46341, 46341]))
  {
    var ds: seq<int> := [46341, 46341];
    assert ds[..1] == [46341] && ds[..1][..0] == [];
    assert Square(46341) == -2147479015;
    assert Fold(ds[..1]).sumSq == -2147479015 && Fold(ds[..1]).sum == 46341;
    assert Fold(ds) == Summary(2, 92682, -4294958030, 46341, 46341);
    RadicandSign(Fold(ds));
  }

  /** A bound on durations ensures that every list has a standard deviation exactly if it is at most 46340. */
  lemma SafeBoundIff(bound: nat)
    ensures (forall ds :: Within(ds, bound) ==> HasDeviation(Fold(ds))) <==> bound <= SAFE
  {
    if bound <= SAFE {
      forall ds | Within(ds, bound)
        ensures HasDeviation(Fold(ds))
      {
        SumSqFallsShort(ds);
        if |ds| >= 2 {
          RadicandNonNegative(ds);
        }
      }
    } else {
      LongDurationsBreakRadicand();
      assert Within([46341, 46341], bound);
    }
  }
}
