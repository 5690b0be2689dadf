/** The assignment-problem matrices: `payoff_matrix` (player by slot machine, payoff or
    the infeasibility sentinel) and `probability_matrix` (the odds of the switching
    prior of each feasible cell's payoff). */
module Matrices {
  import opened Payoffs
  import opened SwitchingPrior

  /** The weight payoff_matrix gives a slot machine the player cannot take. */
  const Sentinel: int := -10000

  /** A partial payoff surface: player id to (slot-machine id to payoff). */
  type Surface = map<int, map<int, int>>

  /** Every slot-machine key of every player 0 .. nplayers - 1 is a column index. */
  predicate SlotsInRange(payoffs: Surface, nslots: nat, nplayers: nat)
  {
    forall p, s :: 0 <= p < nplayers && p in payoffs && s in payoffs[p] ==> 0 <= s < nslots
  }

  /** Every payoff the surface offers is a normalised payoff. */
  predicate PayoffsInRange(payoffs: Surface)
  {
    forall p, s :: p in payoffs && s in payoffs[p] ==> MinPayoff <= payoffs[p][s] <= MaxPayoff
  }

  /** What player p is offered at slot machine s: its payoff, or the sentinel. */
  function PayoffCell(payoffs: Surface, p: int, s: int): int
  {
    if p in payoffs && s in payoffs[p] then payoffs[p][s] else Sentinel
  }

  /** payoff_matrix as a value: row p, column s holds PayoffCell(payoffs, p, s). */
  function PayoffMatrixOf(payoffs: Surface, nslots: nat, nplayers: nat): (r: seq<seq<int>>)
    ensures |r| == nplayers
    ensures forall p :: 0 <= p < nplayers ==> |r[p]| == nslots
  {
    seq(nplayers, p => seq(nslots, s => PayoffCell(payoffs, p, s)))
  }

  /** payoff_matrix: one row per player id in order, each first filled with the sentinel
      and then overwritten at the player's own slot machines. */
  method PayoffMatrix(payoffs: Surface, nslots: nat, nplayers: nat) returns (matrix: seq<seq<int>>)
    requires SlotsInRange(payoffs, nslots, nplayers)
    ensures |matrix| == nplayers
    ensures forall p :: 0 <= p < nplayers ==> |matrix[p]| == nslots
    ensures forall p, s :: 0 <= p < nplayers && 0 <= s < nslots ==>
      matrix[p][s] == PayoffCell(payoffs, p, s)
    ensures matrix == PayoffMatrixOf(payoffs, nslots, nplayers)
  {
    matrix := [];
    var pId := 0;
    while pId < nplayers
      invariant 0 <= pId <= nplayers && |matrix| == pId
      invariant forall p :: 0 <= p < pId ==> matrix[p] == PayoffMatrixOf(payoffs, nslots, nplayers)[p]
    {
      var row := new int[nslots](_ => Sentinel);
      if pId in payoffs {
        var smPayDict := payoffs[pId];
        var keys := smPayDict.Keys;
        while keys != {}
          invariant keys <= smPayDict.Keys
          invariant forall s :: 0 <= s < nslots ==>
            row[s] == if s in smPayDict && s !in keys then smPayDict[s] else Sentinel
          decreases keys
        {
          // PickKey only shows that keys has a member, for the :| below.
          ghost var member := PickKey(keys);
          var smId :| smId in keys;
          row[smId] := smPayDict[smId];
          keys := keys - {smId};
        }
      }
      assert row[..] == PayoffMatrixOf(payoffs, nslots, nplayers)[pId];
      matrix := matrix + [row[..]];
      pId := pId + 1;
    }
  }

  /** Some member of a non-empty set. */
  lemma PickKey(keys: set<int>) returns (k: int)
    requires keys != {}
    ensures k in keys
  {
    if forall x :: x !in keys {
      assert false;
    }
    k :| k in keys;
  }

  /** A player that is not a key of the surface gets a row of sentinels only. */
  lemma AbsentPlayerRowIsSentinel(payoffs: Surface, nslots: nat, nplayers: nat, p: int)
    requires 0 <= p < nplayers && p !in payoffs
    ensures PayoffMatrixOf(payoffs, nslots, nplayers)[p] == seq(nslots, _ => Sentinel)
  {
  }

  /** Every cell is the sentinel or, when the surface holds normalised payoffs, a payoff
      in range; the sentinel marks exactly the cells the surface leaves out. */
  lemma PayoffCellsAreSentinelOrPayoff(payoffs: Surface, nslots: nat, nplayers: nat, p: int, s: int)
    requires PayoffsInRange(payoffs)
    requires 0 <= p < nplayers && 0 <= s < nslots
    ensures var c := PayoffMatrixOf(payoffs, nslots, nplayers)[p][s];
      (c == Sentinel <==> !(p in payoffs && s in payoffs[p])) &&
      (c != Sentinel ==> MinPayoff <= c <= MaxPayoff)
  {
  }

  /** prob has a usable entry for every payoff the surface offers: the key exists and
      1 + prob[v] is not zero. */
  predicate ProbCovers(payoffs: Surface, nplayers: nat, prob: map<int, real>)
  {
    forall p, s :: 0 <= p < nplayers && p in payoffs && s in payoffs[p] && payoffs[p][s] >= 0 ==>
      payoffs[p][s] in prob && prob[payoffs[p][s]] != -1.0
  }

  /** The probability-matrix cell of a payoff-matrix cell v. */
  function ProbabilityCell(v: int, prob: map<int, real>): real
    requires v >= 0 ==> v in prob && prob[v] != -1.0
  {
    if v >= 0 then Odds(prob[v]) else Sentinel as real
  }

  /** probability_matrix as a value. */
  function ProbabilityMatrixOf(payoffs: Surface, nslots: nat, nplayers: nat, prob: map<int, real>): (r: seq<seq<real>>)
    requires ProbCovers(payoffs, nplayers, prob)
    ensures |r| == nplayers
    ensures forall p :: 0 <= p < nplayers ==> |r[p]| == nslots
  {
    seq(nplayers, p requires 0 <= p < nplayers =>
      seq(nslots, s => ProbabilityCell(PayoffCell(payoffs, p, s), prob)))
  }

  /** probability_matrix: a grid pre-filled with the sentinel in which each cell whose
      payoff is non-negative is overwritten with prob[v] / (1 + prob[v]). */
  method ProbabilityMatrix(payoffs: Surface, nslots: nat, nplayers: nat, prob: map<int, real>)
    returns (matrix: seq<seq<real>>)
    requires SlotsInRange(payoffs, nslots, nplayers)
    requires ProbCovers(payoffs, nplayers, prob)
    ensures |matrix| == nplayers
    ensures forall p :: 0 <= p < nplayers ==> |matrix[p]| == nslots
    ensures forall p, s :: 0 <= p < nplayers && 0 <= s < nslots ==>
      matrix[p][s] == ProbabilityCell(PayoffCell(payoffs, p, s), prob)
    ensures matrix == ProbabilityMatrixOf(payoffs, nslots, nplayers, prob)
  {
    var payoffMat := PayoffMatrix(payoffs, nslots, nplayers);
    var grid := new real[nplayers, nslots]((_, _) => Sentinel as real);
    for i := 0 to nplayers
      invariant forall a, b :: 0 <= a < i && 0 <= b < nslots ==>
        grid[a, b] == ProbabilityCell(payoffMat[a][b], prob)
      invariant forall a, b :: i <= a < nplayers && 0 <= b < nslots ==> grid[a, b] == Sentinel as real
    {
      for j := 0 to nslots
        invariant forall a, b :: 0 <= a < i && 0 <= b < nslots ==>
          grid[a, b] == ProbabilityCell(payoffMat[a][b], prob)
        invariant forall b :: 0 <= b < j ==> grid[i, b] == ProbabilityCell(payoffMat[i][b], prob)
        invariant forall a, b :: (i < a < nplayers && 0 <= b < nslots) || (a == i && j <= b < nslots) ==>
          grid[a, b] == Sentinel as real
      {
        var p := payoffMat[i][j];
        if p >= 0 {
          grid[i, j] := prob[p] / (1.0 + prob[p]);
        }
      }
    }
    matrix := seq(nplayers, a requires 0 <= a < nplayers reads grid =>
      seq(nslots, b requires 0 <= b < nslots reads grid => grid[a, b]));
    assert matrix == ProbabilityMatrixOf(payoffs, nslots, nplayers, prob) by {
      forall a | 0 <= a < nplayers
        ensures matrix[a] == ProbabilityMatrixOf(payoffs, nslots, nplayers, prob)[a]
      {
      }
    }
  }

  /** With the prior table of initialize_probs and normalised payoffs, every feasible
      cell of the probability matrix lies in [0, 1/2], and the sentinel stays exactly
      where the payoff matrix has it. */
  lemma PriorProbabilityCellBounds(payoffs: Surface, nslots: nat, nplayers: nat, prob: map<int, real>, p: int, s: int)
    requires IsPriorTable(prob) && PayoffsInRange(payoffs)
    requires 0 <= p < nplayers && 0 <= s < nslots
    ensures ProbCovers(payoffs, nplayers, prob)
    ensures var c := ProbabilityMatrixOf(payoffs, nslots, nplayers, prob)[p][s];
      (c == Sentinel as real <==> PayoffCell(payoffs, p, s) == Sentinel) &&
      (c != Sentinel as real ==> 0.0 <= c <= 0.5)
  {
    PriorTableCovers(payoffs, nplayers, prob);
    var v := PayoffCell(payoffs, p, s);
    if v >= 0 {
      PriorBounds(v);
      OddsBounds(prob[v]);
    }
  }

  lemma PriorTableCovers(payoffs: Surface, nplayers: nat, prob: map<int, real>)
    requires IsPriorTable(prob) && PayoffsInRange(payoffs)
    ensures ProbCovers(payoffs, nplayers, prob)
  {
    forall p, s | 0 <= p < nplayers && p in payoffs && s in payoffs[p] && payoffs[p][s] >= 0
      ensures payoffs[p][s] in prob && prob[payoffs[p][s]] != -1.0
    {
      PriorBounds(payoffs[p][s]);
    }
  }

  /** The selfish policy's matrix ranks feasible cells as the prior does: a prior no
      lower scores no lower, and a strictly higher prior scores strictly higher. */
  lemma ProbabilityFollowsPrior(payoffs: Surface, nslots: nat, nplayers: nat, prob: map<int, real>,
                                p1: int, s1: int, p2: int, s2: int)
    requires IsPriorTable(prob) && PayoffsInRange(payoffs)
    requires 0 <= p1 < nplayers && 0 <= s1 < nslots && 0 <= p2 < nplayers && 0 <= s2 < nslots
    requires PayoffCell(payoffs, p1, s1) != Sentinel && PayoffCell(payoffs, p2, s2) != Sentinel
    requires Prior(PayoffCell(payoffs, p1, s1)) <= Prior(PayoffCell(payoffs, p2, s2))
    ensures ProbCovers(payoffs, nplayers, prob)
    ensures ProbabilityMatrixOf(payoffs, nslots, nplayers, prob)[p1][s1]
         <= ProbabilityMatrixOf(payoffs, nslots, nplayers, prob)[p2][s2]
    ensures Prior(PayoffCell(payoffs, p1, s1)) < Prior(PayoffCell(payoffs, p2, s2)) ==>
      ProbabilityMatrixOf(payoffs, nslots, nplayers, prob)[p1][s1]
      < ProbabilityMatrixOf(payoffs, nslots, nplayers, prob)[p2][s2]
  {
    PriorTableCovers(payoffs, nplayers, prob);
    var v1, v2 := PayoffCell(payoffs, p1, s1), PayoffCell(payoffs, p2, s2);
    PriorBounds(v1);
    OddsIsMonotone(prob[v1], prob[v2]);
  }
}
