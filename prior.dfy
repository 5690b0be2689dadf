/** The prior switching weight per payoff level, `initialize_probs`, and the odds
    transform `q / (1 + q)` that the probability matrix applies to it. */
module SwitchingPrior {

  /** q[level] = 4 x (1 - x) with x = level / 20, which is level (20 - level) / 100. */
  function Prior(level: int): real
  {
    (level * (20 - level)) as real / 100.0
  }

  /** prob is the table initialize_probs builds: keys 0 .. 20, each mapped to its prior. */
  predicate IsPriorTable(prob: map<int, real>)
  {
    (forall i :: i in prob ==> 0 <= i <= 20) && (forall i :: 0 <= i <= 20 ==> i in prob) && (forall i :: i in prob ==> prob[i] == Prior(i))
  }

  /** The parabola 4 x (1 - x) at x = level / 20, as the source computes it. */
  lemma ParabolaIsPrior(level: int)
    ensures (level as real / 20.0) * (1.0 - level as real / 20.0) * 4.0 == Prior(level)
  {
    var l := level as real;
    var y := l * (20.0 - l);
    assert (level * (20 - level)) as real == y;
    assert 1.0 - l / 20.0 == (20.0 - l) / 20.0;
    assert (l / 20.0) * ((20.0 - l) / 20.0) == y / 400.0;
  }

  /** initialize_probs: the prior of every payoff level 0 .. 20. */
  method InitializeProbs() returns (q: map<int, real>)
    ensures IsPriorTable(q)
  {
    q := map[];
    for i := 0 to 21
      invariant forall k :: k in q <==> 0 <= k < i
      invariant forall k :: k in q ==> q[k] == Prior(k)
    {
      ParabolaIsPrior(i);
      q := q[i := (i as real / 20.0) * (1.0 - i as real / 20.0) * 4.0];
    }
  }

  /** Prior(level) = 1 - ((level - 10) / 10)^2: zero at both ends, one at the middle. */
  lemma PriorVertexForm(level: int)
    ensures Prior(level) == 1.0 - ((level - 10) * (level - 10)) as real / 100.0
  {
    assert level * (20 - level) == 100 - (level - 10) * (level - 10);
  }

  lemma PriorEndpoints()
    ensures Prior(0) == 0.0 && Prior(20) == 0.0 && Prior(10) == 1.0
  {
  }

  /** Levels equally far from 10 share their prior. */
  lemma PriorIsSymmetric(level: int)
    ensures Prior(level) == Prior(20 - level)
  {
    assert level * (20 - level) == (20 - level) * (20 - (20 - level));
  }

  /** Every prior of a payoff level lies in [0, 1]. */
  lemma PriorBounds(level: int)
    requires 0 <= level <= 20
    ensures 0.0 <= Prior(level) <= 1.0
  {
    PriorVertexForm(level);
    assert 0 <= (level - 10) * (level - 10) <= 100 by {
      assert -10 <= level - 10 <= 10;
      SquareBound(level - 10, 10);
    }
  }

  lemma SquareBound(d: int, b: int)
    requires 0 <= b && -b <= d <= b
    ensures 0 <= d * d <= b * b
  {
    if d < 0 {
      assert d * d == (-d) * (-d);
      MulMonotone(-d, b);
    } else {
      MulMonotone(d, b);
    }
  }

  lemma MulMonotone(x: nat, y: nat)
    requires x <= y
    ensures x * x <= y * y
  {
    assert x * x <= x * y <= y * y;
  }

  /** The prior strictly increases up to level 10 (and, by symmetry, decreases after). */
  lemma PriorIncreasesToPeak(lo: int, hi: int)
    requires lo < hi <= 10
    ensures Prior(lo) < Prior(hi)
  {
    assert hi * (20 - hi) - lo * (20 - lo) == (hi - lo) * (20 - hi - lo);
    assert (hi - lo) * (20 - hi - lo) > 0 by {
      assert hi - lo > 0 && 20 - hi - lo > 0;
    }
  }

  /** The probability-matrix value of a prior q: the odds transform q / (1 + q). */
  function Odds(q: real): real
    requires q != -1.0
  {
    q / (1.0 + q)
  }

  /** A weight in [0, 1] becomes a value in [0, 1/2]. */
  lemma OddsBounds(q: real)
    requires 0.0 <= q <= 1.0
    ensures 0.0 <= Odds(q) <= 0.5
  {
    DivAtMost(q, 0.5, 1.0 + q);
  }

  lemma DivAtMost(a: real, b: real, d: real)
    requires d > 0.0 && a <= b * d
    ensures a / d <= b
  {
    var r := a / d;
    assert r * d == a;
    if r > b {
      assert (r - b) * d > 0.0;
    }
  }

  /** The transform keeps the order of non-negative weights, so a higher prior is
      always a higher value in the selfish policy's matrix. */
  lemma OddsIsMonotone(p: real, q: real)
    requires 0.0 <= p <= q
    ensures Odds(p) <= Odds(q)
    ensures p < q ==> Odds(p) < Odds(q)
  {
    assert Odds(q) - Odds(p) == (q - p) / ((1.0 + p) * (1.0 + q));
  }
}
