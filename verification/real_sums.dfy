/** Exact real arithmetic used by the Markov-chain pipeline: finite sums,
    natural powers, binomial coefficients and the binomial theorem. */
module RealSums {

  /** Sum of a finite sequence, accumulated left to right as the source's
      `ans += ...` loops do. */
  function Sum(s: seq<real>): real
  {
    if |s| == 0 then 0.0 else Sum(s[..|s| - 1]) + s[|s| - 1]
  }

  /** `x ** k` for a natural exponent. */
  function Pow(x: real, k: nat): real
  {
    if k == 0 then 1.0 else x * Pow(x, k - 1)
  }

  /** The binomial coefficient, by Pascal's rule (`scipy.special.comb`). */
  function Choose(n: nat, k: nat): nat
  {
    if k == 0 then 1 else if n == 0 then 0 else Choose(n - 1, k - 1) + Choose(n - 1, k)
  }

  /** The terms `C(m,k) a^k b^(m-k)` for `k = 0..m`. */
  function BinomialTerms(m: nat, a: real, b: real): (t: seq<real>)
    ensures |t| == m + 1
  {
    seq(m + 1, k requires 0 <= k <= m => Choose(m, k) as real * Pow(a, k) * Pow(b, m - k))
  }

  /** `k` zeros. */
  function Zeros(k: nat): (z: seq<real>)
    ensures |z| == k
  {
    seq(k, _ => 0.0)
  }

  // ---------------------------------------------------------------- sums

  lemma {:induction false} SumConcat(s: seq<real>, t: seq<real>)
    ensures Sum(s + t) == Sum(s) + Sum(t)
    decreases |t|
  {
    if |t| == 0 {
      assert s + t == s;
    } else {
      var t' := t[..|t| - 1];
      assert (s + t)[..|s + t| - 1] == s + t';
      SumConcat(s, t');
    }
  }

  lemma {:induction false} SumAllZero(s: seq<real>)
    requires forall k :: 0 <= k < |s| ==> s[k] == 0.0
    ensures Sum(s) == 0.0
  {
    if |s| > 0 {
      SumAllZero(s[..|s| - 1]);
    }
  }

  /** A sequence that is zero except at position `i` sums to its entry at `i`. */
  lemma {:induction false} SumSingle(s: seq<real>, i: nat)
    requires i < |s|
    requires forall k :: 0 <= k < |s| && k != i ==> s[k] == 0.0
    ensures Sum(s) == s[i]
  {
    var init := s[..|s| - 1];
    if i == |s| - 1 {
      SumAllZero(init);
    } else {
      SumSingle(init, i);
    }
  }

  lemma SumZeros(k: nat)
    ensures Sum(Zeros(k)) == 0.0
  {
    SumAllZero(Zeros(k));
  }

  /** Overwriting one entry changes the sum by the difference. */
  lemma {:induction false} SumUpdate(s: seq<real>, i: nat, x: real)
    requires i < |s|
    ensures Sum(s[i := x]) == Sum(s) - s[i] + x
  {
    var m := |s| - 1;
    if i == m {
      assert s[i := x][..m] == s[..m];
    } else {
      assert s[i := x][..m] == s[..m][i := x];
      SumUpdate(s[..m], i, x);
    }
  }

  lemma {:induction false} SumNonNegative(s: seq<real>)
    requires forall k :: 0 <= k < |s| ==> 0.0 <= s[k]
    ensures 0.0 <= Sum(s)
  {
    if |s| > 0 {
      SumNonNegative(s[..|s| - 1]);
    }
  }

  lemma {:induction false} SumMonotone(s: seq<real>, t: seq<real>)
    requires |s| == |t|
    requires forall k :: 0 <= k < |s| ==> s[k] <= t[k]
    ensures Sum(s) <= Sum(t)
  {
    if |s| > 0 {
      SumMonotone(s[..|s| - 1], t[..|t| - 1]);
    }
  }

  /** Pointwise sum of two sequences of equal length. */
  function Plus(s: seq<real>, t: seq<real>): (u: seq<real>)
    requires |s| == |t|
    ensures |u| == |s|
  {
    seq(|s|, k requires 0 <= k < |s| => s[k] + t[k])
  }

  /** `a` times every entry of `s`. */
  function Times(a: real, s: seq<real>): (u: seq<real>)
    ensures |u| == |s|
  {
    seq(|s|, k requires 0 <= k < |s| => a * s[k])
  }

  lemma {:induction false} SumAdd(s: seq<real>, t: seq<real>)
    requires |s| == |t|
    ensures Sum(Plus(s, t)) == Sum(s) + Sum(t)
  {
    if |s| > 0 {
      var m := |s| - 1;
      assert Plus(s, t)[..m] == Plus(s[..m], t[..m]);
      SumAdd(s[..m], t[..m]);
    }
  }

  lemma {:induction false} SumScale(a: real, s: seq<real>)
    ensures Sum(Times(a, s)) == a * Sum(s)
  {
    if |s| > 0 {
      var m := |s| - 1;
      forall k | 0 <= k < m
        ensures Times(a, s)[..m][k] == Times(a, s[..m])[k]
      {
        assert s[..m][k] == s[k];
      }
      assert Times(a, s)[..m] == Times(a, s[..m]);
      SumScale(a, s[..m]);
    }
  }

  // -------------------------------------------------------------- powers

  lemma {:induction false} PowNonNegative(x: real, k: nat)
    requires 0.0 <= x
    ensures 0.0 <= Pow(x, k)
  {
    if k > 0 {
      PowNonNegative(x, k - 1);
    }
  }

  /** Powers of a probability are probabilities and shrink as the exponent grows. */
  lemma {:induction false} PowUnitInterval(x: real, k: nat)
    requires 0.0 <= x <= 1.0
    ensures 0.0 <= Pow(x, k) <= 1.0
    ensures Pow(x, k + 1) <= Pow(x, k)
  {
    if k > 0 {
      PowUnitInterval(x, k - 1);
      MulUnitInterval(x, Pow(x, k - 1));
    }
    MulUnitInterval(x, Pow(x, k));
  }

  lemma PowOfZero(k: nat)
    requires 1 <= k
    ensures Pow(0.0, k) == 0.0
  {
  }

  lemma {:induction false} PowOfOne(k: nat)
    ensures Pow(1.0, k) == 1.0
  {
    if k > 0 {
      PowOfOne(k - 1);
    }
  }

  // ------------------------------------------------ binomial coefficients

  lemma {:induction false} ChooseAll(n: nat)
    ensures Choose(n, n) == 1
  {
    if n > 0 {
      ChooseAll(n - 1);
      ChooseAbove(n - 1, n);
    }
  }

  lemma {:induction false} ChooseAbove(n: nat, k: nat)
    requires n < k
    ensures Choose(n, k) == 0
  {
    if n > 0 {
      ChooseAbove(n - 1, k - 1);
      ChooseAbove(n - 1, k);
    }
  }

  lemma {:induction false} ChooseSymmetric(n: nat, k: nat)
    requires k <= n
    ensures Choose(n, k) == Choose(n, n - k)
  {
    if k == 0 || k == n {
      ChooseAll(n);
    } else {
      ChooseSymmetric(n - 1, k - 1);
      ChooseSymmetric(n - 1, k);
    }
  }

  lemma MulUnitInterval(x: real, y: real)
    requires 0.0 <= x <= 1.0 && 0.0 <= y <= 1.0
    ensures 0.0 <= x * y <= y
  {
  }

  /** Pascal's rule term by term: row `m` of the binomial terms is `a` times
      row `m-1` shifted right plus `b` times row `m-1`. */
  lemma BinomialStep(m: nat, a: real, b: real, k: nat)
    requires 1 <= m && k <= m
    ensures BinomialTerms(m, a, b)[k]
         == (if k == 0 then 0.0 else a * BinomialTerms(m - 1, a, b)[k - 1])
          + (if k == m then 0.0 else b * BinomialTerms(m - 1, a, b)[k])
  {
    if k == 0 {
      BinomialStepFirst(m, a, b);
    } else if k == m {
      BinomialStepLast(m, a, b);
    } else {
      BinomialStepInner(m, a, b, k);
    }
  }

  lemma BinomialStepFirst(m: nat, a: real, b: real)
    requires 1 <= m
    ensures BinomialTerms(m, a, b)[0] == b * BinomialTerms(m - 1, a, b)[0]
  {
    assert BinomialTerms(m, a, b)[0] == Pow(b, m);
    assert BinomialTerms(m - 1, a, b)[0] == Pow(b, m - 1);
  }

  lemma BinomialStepLast(m: nat, a: real, b: real)
    requires 1 <= m
    ensures BinomialTerms(m, a, b)[m] == a * BinomialTerms(m - 1, a, b)[m - 1]
  {
    ChooseAll(m);
    ChooseAll(m - 1);
    assert BinomialTerms(m, a, b)[m] == Pow(a, m);
    assert BinomialTerms(m - 1, a, b)[m - 1] == Pow(a, m - 1);
  }

  lemma BinomialStepInner(m: nat, a: real, b: real, k: nat)
    requires 0 < k < m
    ensures BinomialTerms(m, a, b)[k]
         == a * BinomialTerms(m - 1, a, b)[k - 1] + b * BinomialTerms(m - 1, a, b)[k]
  {
    var c1, c2 := Choose(m - 1, k - 1) as real, Choose(m - 1, k) as real;
    var pa, pb := Pow(a, k - 1), Pow(b, m - 1 - k);
    assert Choose(m, k) as real == c1 + c2;
    assert BinomialTerms(m, a, b)[k] == (c1 + c2) * (a * pa) * (b * pb);
    assert BinomialTerms(m - 1, a, b)[k - 1] == c1 * pa * (b * pb);
    assert BinomialTerms(m - 1, a, b)[k] == c2 * (a * pa) * pb;
    assert (c1 + c2) * (a * pa) * (b * pb) == a * (c1 * pa * (b * pb)) + b * (c2 * (a * pa) * pb);
  }

  /** `a * t` shifted one place right, with a zero in front. */
  function Shifted(a: real, t: seq<real>): (r: seq<real>)
    ensures |r| == |t| + 1
  {
    [0.0] + Times(a, t)
  }

  /** `b * t` with a zero appended. */
  function Padded(b: real, t: seq<real>): (r: seq<real>)
    ensures |r| == |t| + 1
  {
    Times(b, t) + [0.0]
  }

  lemma SumShifted(a: real, t: seq<real>)
    ensures Sum(Shifted(a, t)) == a * Sum(t)
  {
    assert Sum([0.0]) == Sum([]) + 0.0;
    SumConcat([0.0], Times(a, t));
    SumScale(a, t);
  }

  lemma SumPadded(b: real, t: seq<real>)
    ensures Sum(Padded(b, t)) == b * Sum(t)
  {
    assert Sum([0.0]) == Sum([]) + 0.0;
    SumConcat(Times(b, t), [0.0]);
    SumScale(b, t);
  }

  /** Pascal's rule for whole rows of binomial terms. */
  lemma BinomialRowSplit(m: nat, a: real, b: real)
    requires 1 <= m
    ensures var t := BinomialTerms(m - 1, a, b);
            BinomialTerms(m, a, b) == Plus(Shifted(a, t), Padded(b, t))
  {
    var t := BinomialTerms(m - 1, a, b);
    forall k | 0 <= k <= m
      ensures BinomialTerms(m, a, b)[k] == Shifted(a, t)[k] + Padded(b, t)[k]
    {
      BinomialStep(m, a, b, k);
    }
  }

  /** One step of the binomial theorem: the row-`m` sum is `(a + b)` times the row-`m-1` sum. */
  lemma BinomialRowStep(m: nat, a: real, b: real)
    requires 1 <= m
    ensures Sum(BinomialTerms(m, a, b)) == (a + b) * Sum(BinomialTerms(m - 1, a, b))
  {
    var t := BinomialTerms(m - 1, a, b);
    var l, r := Shifted(a, t), Padded(b, t);
    BinomialRowSplit(m, a, b);
    SumAdd(l, r);
    SumShifted(a, t);
    SumPadded(b, t);
  }

  /** The binomial theorem: `sum_k C(m,k) a^k b^(m-k) = (a+b)^m`. */
  lemma {:induction false} BinomialTheorem(m: nat, a: real, b: real)
    ensures Sum(BinomialTerms(m, a, b)) == Pow(a + b, m)
  {
    if m == 0 {
      assert BinomialTerms(0, a, b) == [1.0];
      assert Sum([1.0]) == Sum([]) + 1.0;
    } else {
      BinomialRowStep(m, a, b);
      BinomialTheorem(m - 1, a, b);
    }
  }
}
