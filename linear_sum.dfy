/** The rectangular linear assignment problem that `scipy.optimize.linear_sum_assignment`
    solves, with an exhaustive reference solver whose result is proved to be of least
    total cost.  The Hungarian algorithm itself is not modelled: any optimal assignment
    satisfies the contract `IsMinimal`, which is all the matching policies rely on. */
module LinearSum {

  datatype Option<T> = None | Some(value: T)

  /** A set of (row, column) pairs, written as the two index arrays the solver returns:
      pair t is (rows[t], cols[t]). */
  datatype Assignment = Assignment(rows: seq<int>, cols: seq<int>)

  function Min(a: nat, b: nat): nat
  {
    if a <= b then a else b
  }

  /** M has n rows of m cells each. */
  predicate IsRect(M: seq<seq<real>>, n: nat, m: nat)
  {
    |M| == n && forall i :: 0 <= i < n ==> |M[i]| == m
  }

  /** Every pair of a names a cell of M. */
  predicate Indexes(M: seq<seq<real>>, a: Assignment)
  {
    |a.rows| == |a.cols| &&
    forall t :: 0 <= t < |a.rows| ==> 0 <= a.rows[t] < |M| && 0 <= a.cols[t] < |M[a.rows[t]]|
  }

  /** a is k pairs whose rows are strictly increasing and lie in [i, n), and whose
      columns are distinct, lie in [0, m) and avoid `used`. */
  predicate Fits(n: nat, m: nat, i: nat, used: set<int>, k: nat, a: Assignment)
  {
    |a.rows| == k && |a.cols| == k &&
    (forall t :: 0 <= t < k ==> i <= a.rows[t] < n && 0 <= a.cols[t] < m && a.cols[t] !in used) &&
    (forall s, t :: 0 <= s < t < k ==> a.rows[s] < a.rows[t] && a.cols[s] != a.cols[t])
  }

  /** What linear_sum_assignment returns for an n-by-m matrix: min(n, m) pairs, rows in
      increasing order, no row and no column used twice. */
  predicate IsAssignment(n: nat, m: nat, a: Assignment)
  {
    Fits(n, m, 0, {}, Min(n, m), a)
  }

  /** Sum of the cells of M that a selects. */
  function Total(M: seq<seq<real>>, a: Assignment): real
    requires Indexes(M, a)
    decreases |a.rows|
  {
    if |a.rows| == 0 then 0.0 else M[a.rows[0]][a.cols[0]] + Total(M, Tail(a))
  }

  function Tail(a: Assignment): Assignment
    requires |a.rows| > 0 && |a.cols| > 0
  {
    Assignment(a.rows[1..], a.cols[1..])
  }

  function Cons(i: int, c: int, a: Assignment): Assignment
  {
    Assignment([i] + a.rows, [c] + a.cols)
  }

  /** a is a valid assignment of least total cost. */
  ghost predicate IsMinimal(M: seq<seq<real>>, n: nat, m: nat, a: Assignment)
  {
    IsRect(M, n, m) && IsAssignment(n, m, a) &&
    forall b :: IsAssignment(n, m, b) ==> Total(M, a) <= Total(M, b)
  }

  /** a is a valid assignment of greatest total. */
  ghost predicate IsMaximal(M: seq<seq<real>>, n: nat, m: nat, a: Assignment)
  {
    IsRect(M, n, m) && IsAssignment(n, m, a) &&
    forall b :: IsAssignment(n, m, b) ==> Total(M, b) <= Total(M, a)
  }

  /** The cell-wise negation `-1 * M`. */
  function Negated(M: seq<seq<real>>): (r: seq<seq<real>>)
    ensures |r| == |M|
    ensures forall i :: 0 <= i < |M| ==> |r[i]| == |M[i]| && forall j :: 0 <= j < |M[i]| ==> r[i][j] == -M[i][j]
  {
    seq(|M|, i requires 0 <= i < |M| => seq(|M[i]|, j requires 0 <= j < |M[i]| => -M[i][j]))
  }

  /** The cheaper of two candidate assignments; absent candidates lose. */
  function Cheaper(M: seq<seq<real>>, x: Option<Assignment>, y: Option<Assignment>): (r: Option<Assignment>)
    requires x.Some? ==> Indexes(M, x.value)
    requires y.Some? ==> Indexes(M, y.value)
    ensures r == x || r == y
    ensures r.Some? <==> x.Some? || y.Some?
    ensures r.Some? && x.Some? ==> Total(M, r.value) <= Total(M, x.value)
    ensures r.Some? && y.Some? ==> Total(M, r.value) <= Total(M, y.value)
  {
    match x
    case None => y
    case Some(a) =>
      match y
      case None => x
      case Some(b) => if Total(M, a) <= Total(M, b) then x else y
  }

  function ConsOption(i: int, c: int, o: Option<Assignment>): Option<Assignment>
  {
    match o
    case None => None
    case Some(a) => Some(Cons(i, c, a))
  }

  /** Cheapest choice of k pairs from rows i.. and columns outside `used`, by exhaustive
      search: either row i is left out, or it takes one of the free columns. */
  function Best(M: seq<seq<real>>, n: nat, m: nat, i: nat, used: set<int>, k: nat): (r: Option<Assignment>)
    requires IsRect(M, n, m) && i <= n
    ensures r.Some? ==> Fits(n, m, i, used, k, r.value)
    decreases n - i, m + 1
  {
    if k == 0 then Some(Assignment([], []))
    else if i == n then None
    else Cheaper(M, Best(M, n, m, i + 1, used, k), BestWithRow(M, n, m, i, used, k, 0))
  }

  /** Cheapest choice of k pairs from rows i.. and columns outside `used` in which row i
      takes a column of at least c. */
  function BestWithRow(M: seq<seq<real>>, n: nat, m: nat, i: nat, used: set<int>, k: nat, c: nat): (r: Option<Assignment>)
    requires IsRect(M, n, m) && i < n && 1 <= k && c <= m
    ensures r.Some? ==> Fits(n, m, i, used, k, r.value)
    decreases n - i, m - c
  {
    if c == m then None
    else
      var rest := BestWithRow(M, n, m, i, used, k, c + 1);
      var here := if c in used then None else ConsOption(i, c, Best(M, n, m, i + 1, used + {c}, k - 1));
      Cheaper(M, rest, here)
  }

  lemma {:induction false} BestIsMinimal(M: seq<seq<real>>, n: nat, m: nat, i: nat, used: set<int>, k: nat, a: Assignment)
    requires IsRect(M, n, m) && i <= n && Fits(n, m, i, used, k, a)
    ensures Best(M, n, m, i, used, k).Some?
    ensures Total(M, Best(M, n, m, i, used, k).value) <= Total(M, a)
    decreases n - i, m + 1
  {
    if k == 0 {
      assert Total(M, a) == 0.0;
    } else {
      assert i < n by { assert i <= a.rows[0] < n; }
      if a.rows[0] > i {
        assert Fits(n, m, i + 1, used, k, a);
        BestIsMinimal(M, n, m, i + 1, used, k, a);
      } else {
        BestWithRowIsMinimal(M, n, m, i, used, k, 0, a);
      }
    }
  }

  lemma {:induction false} BestWithRowIsMinimal(M: seq<seq<real>>, n: nat, m: nat, i: nat, used: set<int>, k: nat, c0: nat, a: Assignment)
    requires IsRect(M, n, m) && i < n && 1 <= k && c0 <= m
    requires Fits(n, m, i, used, k, a) && a.rows[0] == i && c0 <= a.cols[0]
    ensures BestWithRow(M, n, m, i, used, k, c0).Some?
    ensures Total(M, BestWithRow(M, n, m, i, used, k, c0).value) <= Total(M, a)
    decreases n - i, m - c0
  {
    var c := a.cols[0];
    BestWithRowUnfold(M, n, m, i, used, k, c0);
    if c0 == c {
      FirstPairIsMinimal(M, n, m, i, used, k, a);
    } else {
      BestWithRowIsMinimal(M, n, m, i, used, k, c0 + 1, a);
    }
  }

  /** Giving row i the column a gives it, and the other rows the cheapest choice, costs
      no more than a. */
  lemma {:induction false} FirstPairIsMinimal(M: seq<seq<real>>, n: nat, m: nat, i: nat, used: set<int>, k: nat, a: Assignment)
    requires IsRect(M, n, m) && i < n && 1 <= k
    requires Fits(n, m, i, used, k, a) && a.rows[0] == i
    ensures Best(M, n, m, i + 1, used + {a.cols[0]}, k - 1).Some?
    ensures M[i][a.cols[0]] + Total(M, Best(M, n, m, i + 1, used + {a.cols[0]}, k - 1).value) <= Total(M, a)
    decreases n - i, 0
  {
    var tail := Tail(a);
    TailFits(n, m, i, used, k, a);
    BestIsMinimal(M, n, m, i + 1, used + {a.cols[0]}, k - 1, tail);
    assert Total(M, a) == M[i][a.cols[0]] + Total(M, tail);
  }

  /** One step of BestWithRow: its result is no dearer than the search from the next
      column, nor than giving row i column c0 and the rest to Best. */
  lemma BestWithRowUnfold(M: seq<seq<real>>, n: nat, m: nat, i: nat, used: set<int>, k: nat, c0: nat)
    requires IsRect(M, n, m) && i < n && 1 <= k && c0 < m
    ensures var r := BestWithRow(M, n, m, i, used, k, c0);
      var rest := BestWithRow(M, n, m, i, used, k, c0 + 1);
      rest.Some? ==> r.Some? && Total(M, r.value) <= Total(M, rest.value)
    ensures var r := BestWithRow(M, n, m, i, used, k, c0);
      var b := Best(M, n, m, i + 1, used + {c0}, k - 1);
      c0 !in used && b.Some? ==> r.Some? && Total(M, r.value) <= M[i][c0] + Total(M, b.value)
  {
    var b := Best(M, n, m, i + 1, used + {c0}, k - 1);
    if c0 !in used && b.Some? {
      ConsTotal(M, i, c0, b.value);
    }
  }

  lemma TailFits(n: nat, m: nat, i: nat, used: set<int>, k: nat, a: Assignment)
    requires 1 <= k && Fits(n, m, i, used, k, a) && a.rows[0] == i
    ensures Fits(n, m, i + 1, used + {a.cols[0]}, k - 1, Tail(a))
  {
    var tail := Tail(a);
    forall t | 0 <= t < k - 1
      ensures i + 1 <= tail.rows[t] < n && 0 <= tail.cols[t] < m && tail.cols[t] !in used + {a.cols[0]}
    {
      assert a.rows[0] < a.rows[t + 1] && a.cols[0] != a.cols[t + 1];
    }
  }

  lemma ConsTotal(M: seq<seq<real>>, i: int, c: int, b: Assignment)
    requires Indexes(M, b) && 0 <= i < |M| && 0 <= c < |M[i]|
    ensures Indexes(M, Cons(i, c, b)) && Total(M, Cons(i, c, b)) == M[i][c] + Total(M, b)
  {
    assert Tail(Cons(i, c, b)) == b;
  }

  /** The pairs (t, t) for t < k. */
  function Diagonal(k: nat): Assignment
  {
    Assignment(seq(k, t => t), seq(k, t => t))
  }

  /** linear_sum_assignment: a valid assignment of least total cost. */
  function LinearSumAssignment(cost: seq<seq<real>>, n: nat, m: nat): (a: Assignment)
    requires IsRect(cost, n, m)
    ensures IsMinimal(cost, n, m, a)
  {
    var k := Min(n, m);
    assert IsAssignment(n, m, Diagonal(k));
    BestIsMinimal(cost, n, m, 0, {}, k, Diagonal(k));
    BestIsMinimalForAll(cost, n, m);
    Best(cost, n, m, 0, {}, k).value
  }

  lemma BestIsMinimalForAll(M: seq<seq<real>>, n: nat, m: nat)
    requires IsRect(M, n, m)
    ensures forall b :: IsAssignment(n, m, b) ==>
      Best(M, n, m, 0, {}, Min(n, m)).Some? && Total(M, Best(M, n, m, 0, {}, Min(n, m)).value) <= Total(M, b)
  {
    forall b | IsAssignment(n, m, b)
      ensures Best(M, n, m, 0, {}, Min(n, m)).Some? && Total(M, Best(M, n, m, 0, {}, Min(n, m)).value) <= Total(M, b)
    {
      BestIsMinimal(M, n, m, 0, {}, Min(n, m), b);
    }
  }

  /** Summing the negated matrix gives the negated total. */
  lemma {:induction false} TotalNegated(M: seq<seq<real>>, a: Assignment)
    requires Indexes(M, a)
    ensures Indexes(Negated(M), a) && Total(Negated(M), a) == -Total(M, a)
    decreases |a.rows|
  {
    if |a.rows| > 0 {
      TotalNegated(M, Tail(a));
    }
  }

  /** Minimising the cost `-1 * M` is maximising M: the reason both policies negate
      their matrix before calling the solver. */
  lemma MinimalOfNegatedIsMaximal(M: seq<seq<real>>, n: nat, m: nat, a: Assignment)
    requires IsRect(M, n, m)
    ensures IsMinimal(Negated(M), n, m, a) <==> IsMaximal(M, n, m, a)
  {
    forall b | IsAssignment(n, m, b) ensures Total(Negated(M), b) == -Total(M, b) {
      TotalNegated(M, b);
    }
    if IsAssignment(n, m, a) {
      TotalNegated(M, a);
    }
  }

  /** Rows strictly increasing inside [lo, hi) are squeezed between lo + t and
      hi - |rows| + t. */
  lemma {:induction false} IncreasingRowsBounds(rows: seq<int>, lo: int, hi: int)
    requires forall t :: 0 <= t < |rows| ==> lo <= rows[t] < hi
    requires forall s, t :: 0 <= s < t < |rows| ==> rows[s] < rows[t]
    ensures forall t :: 0 <= t < |rows| ==> lo + t <= rows[t] <= hi - |rows| + t
    decreases |rows|
  {
    if |rows| > 0 {
      var tail := rows[1..];
      IncreasingRowsBounds(tail, rows[0] + 1, hi);
      forall t | 0 <= t < |rows| ensures lo + t <= rows[t] <= hi - |rows| + t {
        if t > 0 {
          assert rows[t] == tail[t - 1];
        } else if |rows| > 1 {
          assert rows[0] < rows[1] == tail[0];
        }
      }
    }
  }

  /** With no more rows than columns every row is matched, row t in pair t. */
  lemma EveryRowMatched(n: nat, m: nat, a: Assignment)
    requires n <= m && IsAssignment(n, m, a)
    ensures forall t :: 0 <= t < n ==> a.rows[t] == t
  {
    IncreasingRowsBounds(a.rows, 0, n);
  }
}
