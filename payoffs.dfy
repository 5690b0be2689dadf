/** Payoff generation for one super-group: `normalize_payoff` and `correlated_payoffs`
    of matching_algorithms.py.  The random draws (a Beta(1, 2) base quality per slot
    machine scaled by 20, and Gaussian noise per player and slot machine) are inputs. */
module Payoffs {

  /** The closed range every normalised payoff lies in. */
  const MinPayoff: int := 0
  const MaxPayoff: int := 20

  /** normalize_payoff on one value: round down to an integer, then clip to
      [MinPayoff, MaxPayoff]. */
  function NormalizePayoff(x: real): (r: int)
    ensures MinPayoff <= r <= MaxPayoff
  {
    var f := x.Floor;
    if f < MinPayoff then MinPayoff else if f > MaxPayoff then MaxPayoff else f
  }

  /** The normalised payoff is the level just below x: not above x unless clipped up to
      MinPayoff, and less than one below x unless clipped down to MaxPayoff. */
  lemma NormalizeIsLevelBelow(x: real)
    ensures NormalizePayoff(x) == MinPayoff || NormalizePayoff(x) as real <= x
    ensures NormalizePayoff(x) == MaxPayoff || x < NormalizePayoff(x) as real + 1.0
  {
  }

  /** ... and those two facts single out the normalised payoff among all levels. */
  lemma NormalizeIsUniqueLevelBelow(x: real, r: int)
    requires MinPayoff <= r <= MaxPayoff
    requires r == MinPayoff || r as real <= x
    requires r == MaxPayoff || x < r as real + 1.0
    ensures r == NormalizePayoff(x)
  {
  }

  /** A payoff already in range is left unchanged. */
  lemma NormalizeIsIdentityOnRange(k: int)
    requires MinPayoff <= k <= MaxPayoff
    ensures NormalizePayoff(k as real) == k
  {
  }

  lemma NormalizeIsIdempotent(x: real)
    ensures NormalizePayoff(NormalizePayoff(x) as real) == NormalizePayoff(x)
  {
    NormalizeIsIdentityOnRange(NormalizePayoff(x));
  }

  /** A higher draw never normalises to a lower payoff. */
  lemma NormalizeIsMonotone(x: real, y: real)
    requires x <= y
    ensures NormalizePayoff(x) <= NormalizePayoff(y)
  {
  }

  /** correlated_payoffs: for each player i, the dictionary mapping slot machine j to the
      normalised value of base[j] + noise[i][j]. */
  method CorrelatedPayoffs(nSm: nat, nPlayers: nat, base: seq<real>, noise: seq<seq<real>>)
    returns (payoffs: seq<map<int, int>>)
    requires |base| == nSm && |noise| == nPlayers
    requires forall i :: 0 <= i < nPlayers ==> |noise[i]| == nSm
    ensures |payoffs| == nPlayers
    ensures forall i, j :: 0 <= i < nPlayers ==> (j in payoffs[i] <==> 0 <= j < nSm)
    ensures forall i, j :: 0 <= i < nPlayers && 0 <= j < nSm ==>
      payoffs[i][j] == NormalizePayoff(base[j] + noise[i][j])
    ensures forall i, j :: 0 <= i < nPlayers && j in payoffs[i] ==> MinPayoff <= payoffs[i][j] <= MaxPayoff
  {
    payoffs := [];
    var i := 0;
    while i < nPlayers
      invariant 0 <= i <= nPlayers && |payoffs| == i
      invariant forall a, j :: 0 <= a < i ==> (j in payoffs[a] <==> 0 <= j < nSm)
      invariant forall a, j :: 0 <= a < i && 0 <= j < nSm ==>
        payoffs[a][j] == NormalizePayoff(base[j] + noise[a][j])
    {
      var smD: map<int, int> := map[];
      var pay := seq(nSm, j requires 0 <= j < nSm => NormalizePayoff(base[j] + noise[i][j]));
      var j := 0;
      while j < nSm
        invariant 0 <= j <= nSm
        invariant forall k :: k in smD <==> 0 <= k < j
        invariant forall k :: 0 <= k < j ==> smD[k] == pay[k]
      {
        smD := smD[j := pay[j]];
        j := j + 1;
      }
      payoffs := payoffs + [smD];
      i := i + 1;
    }
    forall i, j | 0 <= i < nPlayers && j in payoffs[i]
      ensures MinPayoff <= payoffs[i][j] <= MaxPayoff
    {
      assert payoffs[i][j] == NormalizePayoff(base[j] + noise[i][j]);
    }
  }
}
