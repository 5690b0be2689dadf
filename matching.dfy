/** The two assignment policies, `fair_matching` and `self_matching`: each negates its
    matrix, hands it to linear_sum_assignment, and reads the chosen cells back out of the
    payoff matrix.  Also what the sentinel does and does not guarantee about the result. */
module Matching {
  import opened Payoffs
  import opened SwitchingPrior
  import opened Matrices
  import opened LinearSum

  /** The payoff matrix as the float array numpy builds from it. */
  function ToReal(M: seq<seq<int>>): (r: seq<seq<real>>)
    ensures |r| == |M|
    ensures forall i :: 0 <= i < |M| ==> |r[i]| == |M[i]| && forall j :: 0 <= j < |M[i]| ==> r[i][j] == M[i][j] as real
  {
    seq(|M|, i requires 0 <= i < |M| => seq(|M[i]|, j requires 0 <= j < |M[i]| => M[i][j] as real))
  }

  /** The real-valued payoff matrix the fair policy maximises. */
  function FairWeights(payoffs: Surface, nslots: nat, nplayers: nat): (r: seq<seq<real>>)
    ensures IsRect(r, nplayers, nslots)
  {
    ToReal(PayoffMatrixOf(payoffs, nslots, nplayers))
  }

  /** fair_matching: an assignment of min(nplayers, nslots) player/slot pairs whose total
      payoff is as large as any other's, and the payoff-matrix cell of each pair. */
  method FairMatching(payoffs: Surface, nslots: nat, nplayers: nat)
    returns (rowInd: seq<int>, colInd: seq<int>, pays: seq<int>)
    requires 0 < nplayers
    requires SlotsInRange(payoffs, nslots, nplayers)
    ensures IsMaximal(FairWeights(payoffs, nslots, nplayers), nplayers, nslots, Assignment(rowInd, colInd))
    ensures |pays| == |rowInd| == |colInd|
    ensures forall k :: 0 <= k < |pays| ==> pays[k] == PayoffCell(payoffs, rowInd[k], colInd[k])
  {
    var payoff := PayoffMatrix(payoffs, nslots, nplayers);
    var cost := Negated(ToReal(payoff));
    var a := LinearSumAssignment(cost, nplayers, nslots);
    MinimalOfNegatedIsMaximal(ToReal(payoff), nplayers, nslots, a);
    rowInd, colInd := a.rows, a.cols;
    pays := [];
    for i := 0 to |rowInd|
      invariant |pays| == i
      invariant forall k :: 0 <= k < i ==> pays[k] == PayoffCell(payoffs, rowInd[k], colInd[k])
    {
      pays := pays + [payoff[rowInd[i]][colInd[i]]];
    }
  }

  /** self_matching: an assignment whose total of the probability matrix is as large as
      any other's; the pays are still read from the payoff matrix. */
  method SelfMatching(payoffs: Surface, nslots: nat, nplayers: nat, q: map<int, real>)
    returns (playerInd: seq<int>, smInd: seq<int>, pays: seq<int>)
    requires 0 < nplayers
    requires SlotsInRange(payoffs, nslots, nplayers)
    requires ProbCovers(payoffs, nplayers, q)
    ensures IsMaximal(ProbabilityMatrixOf(payoffs, nslots, nplayers, q), nplayers, nslots, Assignment(playerInd, smInd))
    ensures |pays| == |playerInd| == |smInd|
    ensures forall k :: 0 <= k < |pays| ==> pays[k] == PayoffCell(payoffs, playerInd[k], smInd[k])
  {
    var prob := ProbabilityMatrix(payoffs, nslots, nplayers, q);
    var payoff := PayoffMatrix(payoffs, nslots, nplayers);
    var nullProb := Negated(prob);
    var a := LinearSumAssignment(nullProb, nplayers, nslots);
    MinimalOfNegatedIsMaximal(prob, nplayers, nslots, a);
    playerInd, smInd := a.rows, a.cols;
    pays := [];
    for i := 0 to |playerInd|
      invariant |pays| == i
      invariant forall k :: 0 <= k < i ==> pays[k] == PayoffCell(payoffs, playerInd[k], smInd[k])
    {
      pays := pays + [payoff[playerInd[i]][smInd[i]]];
    }
  }

  /** No pair of a lands on a sentinel cell of M. */
  predicate AvoidsSentinel(M: seq<seq<real>>, a: Assignment)
    requires Indexes(M, a)
  {
    forall t :: 0 <= t < |a.rows| ==> M[a.rows[t]][a.cols[t]] != Sentinel as real
  }

  /** Every cell of M is the sentinel or lies in [0, hi]. */
  predicate SentinelOrWithin(M: seq<seq<real>>, hi: real)
  {
    forall i, j :: 0 <= i < |M| && 0 <= j < |M[i]| ==> M[i][j] == Sentinel as real || 0.0 <= M[i][j] <= hi
  }

  /** hi added up k times. */
  function Cap(hi: real, k: nat): real
  {
    if k == 0 then 0.0 else hi + Cap(hi, k - 1)
  }

  lemma {:induction false} CapIsProduct(hi: real, k: nat)
    ensures Cap(hi, k) == hi * k as real
  {
    if k > 0 {
      CapIsProduct(hi, k - 1);
      var l := k as real;
      assert (k - 1) as real == l - 1.0;
      assert hi * (l - 1.0) == hi * l - hi;
    }
  }

  lemma {:induction false} TotalAtMost(M: seq<seq<real>>, a: Assignment, hi: real)
    requires Indexes(M, a) && 0.0 <= hi && SentinelOrWithin(M, hi)
    ensures Total(M, a) <= Cap(hi, |a.rows|)
    decreases |a.rows|
  {
    if |a.rows| > 0 {
      assert M[a.rows[0]][a.cols[0]] <= hi;
      TotalAtMost(M, Tail(a), hi);
    }
  }

  lemma {:induction false} TotalOfFeasibleIsNonNegative(M: seq<seq<real>>, a: Assignment, hi: real)
    requires Indexes(M, a) && SentinelOrWithin(M, hi) && AvoidsSentinel(M, a)
    ensures 0.0 <= Total(M, a)
    decreases |a.rows|
  {
    if |a.rows| > 0 {
      assert AvoidsSentinel(M, Tail(a)) by {
        forall t | 0 <= t < |Tail(a).rows|
          ensures M[Tail(a).rows[t]][Tail(a).cols[t]] != Sentinel as real
        {
          assert Tail(a).rows[t] == a.rows[t + 1] && Tail(a).cols[t] == a.cols[t + 1];
        }
      }
      TotalOfFeasibleIsNonNegative(M, Tail(a), hi);
    }
  }

  /** An assignment that picks a sentinel cell totals at most the sentinel plus hi for
      each of its other pairs. */
  lemma {:induction false} TotalWithSentinel(M: seq<seq<real>>, a: Assignment, hi: real, t0: nat)
    requires Indexes(M, a) && 0.0 <= hi && SentinelOrWithin(M, hi)
    requires t0 < |a.rows| && M[a.rows[t0]][a.cols[t0]] == Sentinel as real
    ensures Total(M, a) <= Sentinel as real + Cap(hi, |a.rows| - 1)
    decreases |a.rows|
  {
    if t0 == 0 {
      TotalAtMost(M, Tail(a), hi);
    } else {
      assert Tail(a).rows[t0 - 1] == a.rows[t0] && Tail(a).cols[t0 - 1] == a.cols[t0];
      TotalWithSentinel(M, Tail(a), hi, t0 - 1);
    }
  }

  /** The purpose of the sentinel: as long as a cell's value is at most hi and hi added
      up for the other min(n, m) - 1 pairs stays below 10000, an optimal assignment picks
      no sentinel cell whenever some assignment avoids them all. */
  lemma OptimumAvoidsSentinel(M: seq<seq<real>>, n: nat, m: nat, hi: real, a: Assignment, b: Assignment)
    requires 0.0 <= hi && SentinelOrWithin(M, hi)
    requires Min(n, m) == 0 || Cap(hi, Min(n, m) - 1) < 10000.0
    requires IsMaximal(M, n, m, a)
    requires IsAssignment(n, m, b) && AvoidsSentinel(M, b)
    ensures AvoidsSentinel(M, a)
  {
    TotalOfFeasibleIsNonNegative(M, b, hi);
    assert Total(M, b) <= Total(M, a);
    forall t | 0 <= t < |a.rows|
      ensures M[a.rows[t]][a.cols[t]] != Sentinel as real
    {
      SentinelPickIsNegative(M, a, hi, t);
    }
  }

  /** ... a total that is negative while hi added for the other |a| - 1 pairs stays
      below 10000. */
  lemma SentinelPickIsNegative(M: seq<seq<real>>, a: Assignment, hi: real, t0: nat)
    requires Indexes(M, a) && 0.0 <= hi && SentinelOrWithin(M, hi)
    requires t0 < |a.rows| && Cap(hi, |a.rows| - 1) < 10000.0
    ensures M[a.rows[t0]][a.cols[t0]] == Sentinel as real ==> Total(M, a) < 0.0
  {
    if M[a.rows[t0]][a.cols[t0]] == Sentinel as real {
      TotalWithSentinel(M, a, hi, t0);
    }
  }

  /** Fair policy, with normalised payoffs and at most 500 pairs: if the players can
      all be given slot machines they are offered, the chosen pairs are all offered ones,
      so every pay is a real payoff in [0, 20]. */
  lemma FairOptimumPaysRealPayoffs(payoffs: Surface, nslots: nat, nplayers: nat, a: Assignment, b: Assignment)
    requires PayoffsInRange(payoffs) && Min(nplayers, nslots) <= 500
    requires IsMaximal(FairWeights(payoffs, nslots, nplayers), nplayers, nslots, a)
    requires IsAssignment(nplayers, nslots, b)
    requires forall t :: 0 <= t < |b.rows| ==> PayoffCell(payoffs, b.rows[t], b.cols[t]) != Sentinel
    ensures forall t :: 0 <= t < |a.rows| ==> MinPayoff <= PayoffCell(payoffs, a.rows[t], a.cols[t]) <= MaxPayoff
  {
    var M := FairWeights(payoffs, nslots, nplayers);
    assert SentinelOrWithin(M, 20.0);
    if Min(nplayers, nslots) > 0 {
      CapIsProduct(20.0, Min(nplayers, nslots) - 1);
    }
    OptimumAvoidsSentinel(M, nplayers, nslots, 20.0, a, b);
  }

  /** Selfish policy under the prior of initialize_probs: the same guarantee, since every
      feasible probability cell is at most 1/2. */
  lemma SelfOptimumPaysRealPayoffs(payoffs: Surface, nslots: nat, nplayers: nat, q: map<int, real>, a: Assignment, b: Assignment)
    requires PayoffsInRange(payoffs) && IsPriorTable(q) && Min(nplayers, nslots) <= 20000
    requires ProbCovers(payoffs, nplayers, q)
    requires IsMaximal(ProbabilityMatrixOf(payoffs, nslots, nplayers, q), nplayers, nslots, a)
    requires IsAssignment(nplayers, nslots, b)
    requires forall t :: 0 <= t < |b.rows| ==> PayoffCell(payoffs, b.rows[t], b.cols[t]) != Sentinel
    ensures forall t :: 0 <= t < |a.rows| ==> MinPayoff <= PayoffCell(payoffs, a.rows[t], a.cols[t]) <= MaxPayoff
  {
    var M := ProbabilityMatrixOf(payoffs, nslots, nplayers, q);
    forall i, j | 0 <= i < nplayers && 0 <= j < nslots
      ensures M[i][j] == Sentinel as real || 0.0 <= M[i][j] <= 0.5
      ensures M[i][j] == Sentinel as real <==> PayoffCell(payoffs, i, j) == Sentinel
    {
      PriorProbabilityCellBounds(payoffs, nslots, nplayers, q, i, j);
    }
    if Min(nplayers, nslots) > 0 {
      CapIsProduct(0.5, Min(nplayers, nslots) - 1);
    }
    OptimumAvoidsSentinel(M, nplayers, nslots, 0.5, a, b);
  }

  /** What the code does instead of reporting infeasibility: with no more players than
      slot machines every player is in the assignment, so a player offered no slot
      machine at all is paid the sentinel -10000. */
  lemma UnmatchablePlayerGetsSentinel(payoffs: Surface, nslots: nat, nplayers: nat, p: int, a: Assignment)
    requires nplayers <= nslots && 0 <= p < nplayers
    requires forall s :: 0 <= s < nslots ==> PayoffCell(payoffs, p, s) == Sentinel
    requires IsAssignment(nplayers, nslots, a)
    ensures a.rows[p] == p && PayoffCell(payoffs, a.rows[p], a.cols[p]) == Sentinel
  {
    EveryRowMatched(nplayers, nslots, a);
  }
}
