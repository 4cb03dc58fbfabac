/** Square real matrices over infected-count states: product, power, and the
    row-sum facts that make products of (sub-)stochastic matrices
    (sub-)stochastic. `np.matmul` and `np.identity` are modelled here. */
module Matrices {
  import opened RealSums

  type Matrix = seq<seq<real>>

  predicate IsSquare(m: Matrix, size: nat)
  {
    |m| == size && forall i :: 0 <= i < size ==> |m[i]| == size
  }

  /** Row `i` of the identity: 1 at column `i`, 0 elsewhere. */
  function Unit(size: nat, i: nat): (u: seq<real>)
    ensures |u| == size
  {
    seq(size, j => if j == i then 1.0 else 0.0)
  }

  function Identity(size: nat): (id: Matrix)
    ensures IsSquare(id, size)
  {
    seq(size, i requires 0 <= i < size => Unit(size, i))
  }

  /** The terms `a[i][k] * b[k][j]` whose sum is entry `(i, j)` of `a * b`. */
  function ProductTerms(a: Matrix, b: Matrix, i: nat, j: nat): (t: seq<real>)
    requires IsSquare(a, |a|) && IsSquare(b, |a|)
    requires i < |a| && j < |a|
    ensures |t| == |a|
  {
    seq(|a|, k requires 0 <= k < |a| => a[i][k] * b[k][j])
  }

  /** Entry `(i, j)` of the product `a * b`. */
  function Entry(a: Matrix, b: Matrix, i: nat, j: nat): real
    requires IsSquare(a, |a|) && IsSquare(b, |a|)
    requires i < |a| && j < |a|
  {
    Sum(ProductTerms(a, b, i, j))
  }

  function MatMul(a: Matrix, b: Matrix): (c: Matrix)
    requires IsSquare(a, |a|) && IsSquare(b, |a|)
    ensures IsSquare(c, |a|)
  {
    seq(|a|, i requires 0 <= i < |a| => seq(|a|, j requires 0 <= j < |a| => Entry(a, b, i, j)))
  }

  /** `d` raised to the `k`-th power by repeated multiplication on the right,
      starting from the identity (the source's `final` loop). */
  function MatPow(d: Matrix, k: nat): (r: Matrix)
    requires IsSquare(d, |d|)
    ensures IsSquare(r, |d|)
  {
    if k == 0 then Identity(|d|) else MatMul(MatPow(d, k - 1), d)
  }

  predicate NonNegative(m: Matrix)
  {
    forall i, j :: 0 <= i < |m| && 0 <= j < |m[i]| ==> 0.0 <= m[i][j]
  }

  /** Non-negative entries and every row summing to at most 1. */
  predicate SubStochastic(m: Matrix)
  {
    IsSquare(m, |m|) && NonNegative(m) && forall i :: 0 <= i < |m| ==> Sum(m[i]) <= 1.0
  }

  /** Non-negative entries and every row summing to exactly 1. */
  predicate Stochastic(m: Matrix)
  {
    IsSquare(m, |m|) && NonNegative(m) && forall i :: 0 <= i < |m| ==> Sum(m[i]) == 1.0
  }

  /** `x` and `y` have the same shape and agree at every column other than 0. */
  predicate AgreeOffColumnZero(x: Matrix, y: Matrix)
  {
    IsSquare(x, |x|) && IsSquare(y, |x|)
    && forall i, j :: 0 <= i < |x| && 1 <= j < |x| ==> x[i][j] == y[i][j]
  }

  // ------------------------------------------------------------ row sums

  /** Column `j` of a table whose rows are all longer than `j`. */
  function Column(t: seq<seq<real>>, j: nat): (c: seq<real>)
    requires forall k :: 0 <= k < |t| ==> j < |t[k]|
    ensures |c| == |t|
  {
    seq(|t|, k requires 0 <= k < |t| => t[k][j])
  }

  function RowSums(t: seq<seq<real>>): (r: seq<real>)
    ensures |r| == |t|
  {
    seq(|t|, k requires 0 <= k < |t| => Sum(t[k]))
  }

  function ColumnSums(t: seq<seq<real>>, width: nat): (c: seq<real>)
    requires forall k :: 0 <= k < |t| ==> |t[k]| == width
    ensures |c| == width
  {
    seq(width, j requires 0 <= j < width => Sum(Column(t, j)))
  }

  /** Summing a table by columns or by rows gives the same total. */
  lemma {:induction false} SumExchange(t: seq<seq<real>>, width: nat)
    requires forall k :: 0 <= k < |t| ==> |t[k]| == width
    ensures Sum(ColumnSums(t, width)) == Sum(RowSums(t))
  {
    if |t| == 0 {
      SumAllZero(ColumnSums(t, width));
    } else {
      var m := |t| - 1;
      var init := t[..m];
      SumExchange(init, width);
      ColumnSumsStep(t, width);
      SumAdd(ColumnSums(init, width), t[m]);
      assert RowSums(t)[..m] == RowSums(init);
    }
  }

  /** Dropping the last row of a table takes that row off its column sums. */
  lemma ColumnSumsStep(t: seq<seq<real>>, width: nat)
    requires |t| > 0 && forall k :: 0 <= k < |t| ==> |t[k]| == width
    ensures ColumnSums(t, width) == Plus(ColumnSums(t[..|t| - 1], width), t[|t| - 1])
  {
    var m := |t| - 1;
    forall j | 0 <= j < width
      ensures ColumnSums(t, width)[j] == ColumnSums(t[..m], width)[j] + t[m][j]
    {
      assert Column(t, j)[..m] == Column(t[..m], j);
    }
  }

  /** The table whose row `k` is `a[i][k]` times row `k` of `b`: its columns
      are the terms of row `i` of `a * b`. */
  function Terms(a: Matrix, b: Matrix, i: nat): (t: seq<seq<real>>)
    requires IsSquare(a, |a|) && IsSquare(b, |a|) && i < |a|
    ensures |t| == |a| && forall k :: 0 <= k < |t| ==> |t[k]| == |a|
  {
    seq(|a|, k requires 0 <= k < |a| => Times(a[i][k], b[k]))
  }

  /** The row sums of `b`, each weighted by the matching entry of row `i` of `a`. */
  function Weighted(a: Matrix, b: Matrix, i: nat): (w: seq<real>)
    requires IsSquare(a, |a|) && IsSquare(b, |a|) && i < |a|
    ensures |w| == |a|
  {
    seq(|a|, k requires 0 <= k < |a| => a[i][k] * Sum(b[k]))
  }

  lemma ProductRowByColumns(a: Matrix, b: Matrix, i: nat)
    requires IsSquare(a, |a|) && IsSquare(b, |a|) && i < |a|
    ensures MatMul(a, b)[i] == ColumnSums(Terms(a, b, i), |a|)
  {
    forall j | 0 <= j < |a|
      ensures MatMul(a, b)[i][j] == ColumnSums(Terms(a, b, i), |a|)[j]
    {
      forall k | 0 <= k < |a|
        ensures ProductTerms(a, b, i, j)[k] == Column(Terms(a, b, i), j)[k]
      {
        assert Terms(a, b, i)[k] == Times(a[i][k], b[k]);
      }
      assert ProductTerms(a, b, i, j) == Column(Terms(a, b, i), j);
    }
  }

  lemma TermsRowSums(a: Matrix, b: Matrix, i: nat)
    requires IsSquare(a, |a|) && IsSquare(b, |a|) && i < |a|
    ensures RowSums(Terms(a, b, i)) == Weighted(a, b, i)
  {
    forall k | 0 <= k < |a|
      ensures RowSums(Terms(a, b, i))[k] == Weighted(a, b, i)[k]
    {
      SumScale(a[i][k], b[k]);
    }
  }

  /** Row `i` of `a * b` sums to the `a[i]`-weighted sum of the row sums of `b`. */
  lemma RowSumOfProduct(a: Matrix, b: Matrix, i: nat)
    requires IsSquare(a, |a|) && IsSquare(b, |a|) && i < |a|
    ensures Sum(MatMul(a, b)[i]) == Sum(Weighted(a, b, i))
  {
    ProductRowByColumns(a, b, i);
    SumExchange(Terms(a, b, i), |a|);
    TermsRowSums(a, b, i);
  }

  lemma ProductNonNegative(a: Matrix, b: Matrix)
    requires IsSquare(a, |a|) && IsSquare(b, |a|)
    requires NonNegative(a) && NonNegative(b)
    ensures NonNegative(MatMul(a, b))
  {
    var n := |a|;
    forall i, j | 0 <= i < n && 0 <= j < n
      ensures 0.0 <= MatMul(a, b)[i][j]
    {
      forall k | 0 <= k < n
        ensures 0.0 <= ProductTerms(a, b, i, j)[k]
      {
        NonNegativeProduct(a[i][k], b[k][j]);
      }
      SumNonNegative(ProductTerms(a, b, i, j));
    }
  }

  lemma NonNegativeProduct(x: real, y: real)
    requires 0.0 <= x && 0.0 <= y
    ensures 0.0 <= x * y
  {
  }

  /** Products of sub-stochastic matrices are sub-stochastic. */
  lemma MatMulSubStochastic(a: Matrix, b: Matrix)
    requires SubStochastic(a) && SubStochastic(b) && |b| == |a|
    ensures SubStochastic(MatMul(a, b))
  {
    var n := |a|;
    ProductNonNegative(a, b);
    forall i | 0 <= i < n
      ensures Sum(MatMul(a, b)[i]) <= 1.0
    {
      RowSumOfProduct(a, b, i);
      WeightedBelowRow(a, b, i);
      SumMonotone(Weighted(a, b, i), a[i]);
    }
  }

  /** Weighting by row sums of at most 1 shrinks every non-negative weight. */
  lemma WeightedBelowRow(a: Matrix, b: Matrix, i: nat)
    requires SubStochastic(a) && SubStochastic(b) && |b| == |a| && i < |a|
    ensures forall k :: 0 <= k < |a| ==> Weighted(a, b, i)[k] <= a[i][k]
  {
    forall k | 0 <= k < |a|
      ensures Weighted(a, b, i)[k] <= a[i][k]
    {
      ScaleAtMostOne(a[i][k], Sum(b[k]));
    }
  }

  lemma ScaleAtMostOne(x: real, y: real)
    requires 0.0 <= x && y <= 1.0
    ensures x * y <= x
  {
  }

  /** Products of stochastic matrices are stochastic. */
  lemma MatMulStochastic(a: Matrix, b: Matrix)
    requires Stochastic(a) && Stochastic(b) && |b| == |a|
    ensures Stochastic(MatMul(a, b))
  {
    var n := |a|;
    ProductNonNegative(a, b);
    forall i | 0 <= i < n
      ensures Sum(MatMul(a, b)[i]) == 1.0
    {
      RowSumOfProduct(a, b, i);
      assert Weighted(a, b, i) == a[i];
    }
  }

  lemma IdentityStochastic(size: nat)
    ensures Stochastic(Identity(size))
  {
    forall i | 0 <= i < size
      ensures Sum(Identity(size)[i]) == 1.0
    {
      SumSingle(Unit(size, i), i);
    }
  }

  /** Every power of a sub-stochastic matrix is sub-stochastic. */
  lemma {:induction false} MatPowSubStochastic(d: Matrix, k: nat)
    requires SubStochastic(d)
    ensures SubStochastic(MatPow(d, k))
  {
    if k == 0 {
      IdentityStochastic(|d|);
    } else {
      MatPowSubStochastic(d, k - 1);
      MatMulSubStochastic(MatPow(d, k - 1), d);
    }
  }

  /** Every power of a stochastic matrix is stochastic. */
  lemma {:induction false} MatPowStochastic(d: Matrix, k: nat)
    requires Stochastic(d)
    ensures Stochastic(MatPow(d, k))
  {
    if k == 0 {
      IdentityStochastic(|d|);
    } else {
      MatPowStochastic(d, k - 1);
      MatMulStochastic(MatPow(d, k - 1), d);
    }
  }

  // --------------------------------------------------- zero rows, columns

  lemma MatMulIdentityLeft(d: Matrix)
    requires IsSquare(d, |d|)
    ensures MatMul(Identity(|d|), d) == d
  {
    var n := |d|;
    var id := Identity(n);
    forall i | 0 <= i < n
      ensures MatMul(id, d)[i] == d[i]
    {
      forall j | 0 <= j < n
        ensures MatMul(id, d)[i][j] == d[i][j]
      {
        assert ProductTerms(id, d, i, j)[i] == d[i][j];
        SumSingle(ProductTerms(id, d, i, j), i);
      }
    }
  }

  /** A zero row of the left factor gives a zero row of the product. */
  lemma ZeroRowProduct(a: Matrix, b: Matrix, r: nat)
    requires IsSquare(a, |a|) && IsSquare(b, |a|) && r < |a|
    requires forall j :: 0 <= j < |a| ==> a[r][j] == 0.0
    ensures forall j :: 0 <= j < |a| ==> MatMul(a, b)[r][j] == 0.0
  {
    forall j | 0 <= j < |a|
      ensures MatMul(a, b)[r][j] == 0.0
    {
      SumAllZero(ProductTerms(a, b, r, j));
    }
  }

  /** A zero column of the right factor gives a zero column of the product. */
  lemma ZeroColumnProduct(a: Matrix, b: Matrix, c: nat)
    requires IsSquare(a, |a|) && IsSquare(b, |a|) && c < |a|
    requires forall k :: 0 <= k < |a| ==> b[k][c] == 0.0
    ensures forall i :: 0 <= i < |a| ==> MatMul(a, b)[i][c] == 0.0
  {
    forall i | 0 <= i < |a|
      ensures MatMul(a, b)[i][c] == 0.0
    {
      SumAllZero(ProductTerms(a, b, i, c));
    }
  }

  /** A zero row of `d` stays a zero row of every positive power of `d`. */
  lemma {:induction false} MatPowZeroRow(d: Matrix, k: nat, r: nat)
    requires IsSquare(d, |d|) && r < |d| && 1 <= k
    requires forall j :: 0 <= j < |d| ==> d[r][j] == 0.0
    ensures forall j :: 0 <= j < |d| ==> MatPow(d, k)[r][j] == 0.0
  {
    if k == 1 {
      assert MatPow(d, 1) == MatMul(Identity(|d|), d);
      MatMulIdentityLeft(d);
    } else {
      MatPowZeroRow(d, k - 1, r);
      ZeroRowProduct(MatPow(d, k - 1), d, r);
    }
  }

  /** A zero column of `d` stays a zero column of every positive power of `d`. */
  lemma MatPowZeroColumn(d: Matrix, k: nat, c: nat)
    requires IsSquare(d, |d|) && c < |d| && 1 <= k
    requires forall i :: 0 <= i < |d| ==> d[i][c] == 0.0
    ensures forall i :: 0 <= i < |d| ==> MatPow(d, k)[i][c] == 0.0
  {
    ZeroColumnProduct(MatPow(d, k - 1), d, c);
  }

  // ------------------------------------------- agreement off column zero

  /** Products of factors that agree off column 0 agree off column 0, provided
      the right factor has nothing but 0 in row 0 outside column 0. */
  lemma MatMulAgree(x: Matrix, x': Matrix, y: Matrix, y': Matrix)
    requires AgreeOffColumnZero(x, x') && AgreeOffColumnZero(y, y') && |y| == |x| && 1 <= |x|
    requires forall j :: 1 <= j < |y| ==> y[0][j] == 0.0
    ensures AgreeOffColumnZero(MatMul(x, y), MatMul(x', y'))
  {
    var n := |x|;
    forall i, j | 0 <= i < n && 1 <= j < n
      ensures MatMul(x, y)[i][j] == MatMul(x', y')[i][j]
    {
      var t, t' := ProductTerms(x, y, i, j), ProductTerms(x', y', i, j);
      forall k | 0 <= k < n
        ensures t[k] == t'[k]
      {
        if k == 0 {
          assert y[0][j] == 0.0 && y'[0][j] == 0.0;
        } else {
          assert x[i][k] == x'[i][k] && y[k][j] == y'[k][j];
        }
      }
      assert t == t';
    }
  }

  /** Powers of matrices that agree off column 0 agree off column 0, provided
      state 0 leads nowhere but to column 0. */
  lemma {:induction false} MatPowAgree(d: Matrix, d': Matrix, k: nat)
    requires AgreeOffColumnZero(d, d') && 1 <= |d|
    requires forall j :: 1 <= j < |d| ==> d[0][j] == 0.0
    ensures AgreeOffColumnZero(MatPow(d, k), MatPow(d', k))
  {
    if k > 0 {
      MatPowAgree(d, d', k - 1);
      MatMulAgree(MatPow(d, k - 1), MatPow(d', k - 1), d, d');
    }
  }
}
