/** Rows of real numbers as the two solvers use them: value rows, action-value
    rows and policy rows (one probability per action). */
module Tables {

  /** Sum of a row, added from the front (numpy's / Python's `sum`). */
  function Sum(xs: seq<real>): real
  {
    if xs == [] then 0.0 else xs[0] + Sum(xs[1..])
  }

  /** `np.zeros(n)` */
  function Zeros(n: nat): seq<real>
  {
    seq(n, _ => 0.0)
  }

  /** `np.eye(n)[k]`: the row with a single 1.0 at index k. */
  function OneHot(n: nat, k: nat): seq<real>
  {
    seq(n, j => if j == k then 1.0 else 0.0)
  }

  /** `np.ones(n) / n` */
  function Uniform(n: nat): seq<real>
    requires n > 0
  {
    seq(n, _ => 1.0 / n as real)
  }

  /** A probability distribution over the indices of the row. */
  predicate IsDistribution(row: seq<real>)
  {
    (forall j :: 0 <= j < |row| ==> row[j] >= 0.0) && Sum(row) == 1.0
  }

  /** The two shapes a stored policy row can take: uniform or one-hot. */
  predicate RowShape(row: seq<real>, n: nat)
  {
    n > 0 && (row == Uniform(n) || exists k :: 0 <= k < n && row == OneHot(n, k))
  }

  function Abs(x: real): real
  {
    if x < 0.0 then -x else x
  }

  /** Python's `max(a, b)`. */
  function Max2(a: real, b: real): (r: real)
    ensures r >= a && r >= b && (r == a || r == b)
  {
    if a >= b then a else b
  }

  /** i is the first index at which xs takes its largest value. */
  predicate IsFirstMax(xs: seq<real>, i: nat)
  {
    i < |xs| &&
    (forall j :: 0 <= j < |xs| ==> xs[j] <= xs[i]) &&
    (forall j :: 0 <= j < i ==> xs[j] < xs[i])
  }

  /** `np.argmax`: scans left to right, keeping the first index of the largest value. */
  function ArgMax(xs: seq<real>): (i: nat)
    requires |xs| > 0
    ensures i < |xs|
    decreases |xs|
  {
    if |xs| == 1 then 0
    else
      var k := ArgMax(xs[..|xs| - 1]);
      if xs[|xs| - 1] > xs[k] then |xs| - 1 else k
  }

  /** `np.argmax` returns the lowest index holding the largest value. */
  lemma {:induction false} ArgMaxIsFirstMax(xs: seq<real>)
    requires |xs| > 0
    ensures IsFirstMax(xs, ArgMax(xs))
    decreases |xs|
  {
    if |xs| > 1 {
      ArgMaxIsFirstMax(xs[..|xs| - 1]);
    }
  }

  /** `np.max` */
  function Max(xs: seq<real>): real
    requires |xs| > 0
    decreases |xs|
  {
    if |xs| == 1 then xs[0] else Max2(Max(xs[..|xs| - 1]), xs[|xs| - 1])
  }

  /** The largest value is the one at the first-maximum index. */
  lemma {:induction false} MaxAtArgMax(xs: seq<real>)
    requires |xs| > 0
    ensures xs[ArgMax(xs)] == Max(xs)
    ensures forall j :: 0 <= j < |xs| ==> xs[j] <= Max(xs)
    decreases |xs|
  {
    ArgMaxIsFirstMax(xs);
    if |xs| > 1 {
      MaxAtArgMax(xs[..|xs| - 1]);
    }
  }

  lemma {:induction false} SumAllEqual(xs: seq<real>, c: real)
    requires forall j :: 0 <= j < |xs| ==> xs[j] == c
    ensures Sum(xs) == |xs| as real * c
  {
    if xs != [] {
      SumAllEqual(xs[1..], c);
    }
  }

  /** A row that is zero except at k sums to its entry at k. */
  lemma {:induction false} SumSingleNonZero(xs: seq<real>, k: nat)
    requires k < |xs|
    requires forall j :: 0 <= j < |xs| && j != k ==> xs[j] == 0.0
    ensures Sum(xs) == xs[k]
  {
    if k == 0 {
      SumAllEqual(xs[1..], 0.0);
    } else {
      SumSingleNonZero(xs[1..], k - 1);
    }
  }

  /** Appending a value adds it to the sum. */
  lemma {:induction false} SumAppend(xs: seq<real>, x: real)
    ensures Sum(xs + [x]) == Sum(xs) + x
  {
    if xs != [] {
      assert (xs + [x])[1..] == xs[1..] + [x];
      SumAppend(xs[1..], x);
    }
  }

  /** A one-hot row has exactly one 1.0, zeros elsewhere, and is a distribution. */
  lemma OneHotIsDistribution(n: nat, k: nat)
    requires k < n
    ensures |OneHot(n, k)| == n && OneHot(n, k)[k] == 1.0
    ensures forall j :: 0 <= j < n && j != k ==> OneHot(n, k)[j] == 0.0
    ensures IsDistribution(OneHot(n, k))
  {
    SumSingleNonZero(OneHot(n, k), k);
  }

  /** The uniform row 1/n is a distribution. */
  lemma UniformIsDistribution(n: nat)
    requires n > 0
    ensures |Uniform(n)| == n
    ensures IsDistribution(Uniform(n))
  {
    SumAllEqual(Uniform(n), 1.0 / n as real);
  }

  /** Every row of either shape is a probability distribution. */
  lemma RowShapeIsDistribution(row: seq<real>, n: nat)
    requires RowShape(row, n)
    ensures |row| == n && IsDistribution(row)
  {
    if row == Uniform(n) {
      UniformIsDistribution(n);
    } else {
      var k :| 0 <= k < n && row == OneHot(n, k);
      OneHotIsDistribution(n, k);
    }
  }

  /** Writing 1.0 into a zero row at k gives the one-hot row at k. */
  lemma ZerosSetIsOneHot(n: nat, k: nat)
    requires k < n
    ensures Zeros(n)[k := 1.0] == OneHot(n, k)
  {
  }
}
