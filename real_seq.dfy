/** Sums, scaling and point-wise accumulation over vectors of reals.
    The engine's vectors (proportions, counts, weights) are `double` arrays
    in the source; here they are viewed as `seq<real>` in specifications. */
module RealSeq {

  /** Sum of a vector, accumulated left to right as the source's loops do. */
  function Sum(v: seq<real>): (s: real)
    decreases |v|
  {
    if |v| == 0 then 0.0 else Sum(v[..|v| - 1]) + v[|v| - 1]
  }

  predicate NonNeg(v: seq<real>)
  {
    forall i :: 0 <= i < |v| ==> v[i] >= 0.0
  }

  /** A probability vector: non-negative entries summing to one. */
  predicate Simplex(v: seq<real>)
  {
    NonNeg(v) && Sum(v) == 1.0
  }

  function Zeros(n: nat): (z: seq<real>)
    ensures |z| == n && NonNeg(z)
  {
    seq(n, _ => 0.0)
  }

  /** Every entry of `v` divided by `d`. */
  function Divide(v: seq<real>, d: real): (r: seq<real>)
    requires d != 0.0
    ensures |r| == |v|
  {
    seq(|v|, i requires 0 <= i < |v| => v[i] / d)
  }

  /** Add `x` to entry `j`, as `countv[j] += x`. */
  function AddAt(v: seq<real>, j: nat, x: real): (r: seq<real>)
    requires j < |v|
    ensures |r| == |v|
  {
    v[j := v[j] + x]
  }

  predicate IndicesBelow(idx: seq<nat>, n: nat)
  {
    forall k :: 0 <= k < |idx| ==> idx[k] < n
  }

  /** `v` after `v[idx[k]] += vals[k]` for k = 0, 1, ... in order. */
  function Accumulate(v: seq<real>, idx: seq<nat>, vals: seq<real>): (r: seq<real>)
    requires |idx| == |vals| && IndicesBelow(idx, |v|)
    ensures |r| == |v|
    decreases |idx|
  {
    if |idx| == 0 then v
    else
      var n := |idx| - 1;
      AddAt(Accumulate(v, idx[..n], vals[..n]), idx[n], vals[n])
  }

  lemma {:induction false} SumAppend(a: seq<real>, b: seq<real>)
    ensures Sum(a + b) == Sum(a) + Sum(b)
    decreases |b|
  {
    if |b| == 0 {
      assert a + b == a;
    } else {
      var n := |b| - 1;
      assert (a + b)[..|a + b| - 1] == a + b[..n];
      SumAppend(a, b[..n]);
    }
  }

  lemma SumSnoc(v: seq<real>, x: real)
    ensures Sum(v + [x]) == Sum(v) + x
  {
    assert (v + [x])[..|v|] == v;
  }

  lemma SumSingle(x: real)
    ensures Sum([x]) == x
  {
    assert [x][..0] == [];
  }

  lemma {:induction false} SumNonNeg(v: seq<real>)
    requires NonNeg(v)
    ensures Sum(v) >= 0.0
    decreases |v|
  {
    if |v| > 0 {
      SumNonNeg(v[..|v| - 1]);
    }
  }

  lemma {:induction false} SumZeros(n: nat)
    ensures Sum(Zeros(n)) == 0.0
  {
    if n > 0 {
      assert Zeros(n)[..n - 1] == Zeros(n - 1);
      SumZeros(n - 1);
    }
  }

  /** An entry of a non-negative vector is bounded by the vector's sum. */
  lemma {:induction false} EntryAtMostSum(v: seq<real>, i: nat)
    requires NonNeg(v) && i < |v|
    ensures v[i] <= Sum(v)
    decreases |v|
  {
    var n := |v| - 1;
    if i < n {
      EntryAtMostSum(v[..n], i);
    } else {
      SumNonNeg(v[..n]);
    }
  }

  lemma {:induction false} SumDivide(v: seq<real>, d: real)
    requires d != 0.0
    ensures Sum(Divide(v, d)) == Sum(v) / d
    decreases |v|
  {
    if |v| > 0 {
      var n := |v| - 1;
      assert Divide(v, d)[..n] == Divide(v[..n], d);
      SumDivide(v[..n], d);
    }
  }

  /** Dividing a non-negative vector by its positive sum gives a probability vector. */
  lemma Normalized(v: seq<real>)
    requires NonNeg(v) && Sum(v) > 0.0
    ensures Simplex(Divide(v, Sum(v)))
    ensures forall i :: 0 <= i < |v| ==> 0.0 <= Divide(v, Sum(v))[i] <= 1.0
  {
    var s := Sum(v);
    var r := Divide(v, s);
    SumDivide(v, s);
    DivSelf(s);
    forall i | 0 <= i < |v|
      ensures 0.0 <= r[i] <= 1.0
    {
      EntryAtMostSum(v, i);
      FractionBounds(v[i], s);
    }
  }

  lemma FractionBounds(x: real, s: real)
    requires 0.0 <= x <= s && s > 0.0
    ensures 0.0 <= x / s <= 1.0
  {
  }

  lemma DivSelf(s: real)
    requires s != 0.0
    ensures s / s == 1.0
  {
  }

  lemma {:induction false} SumAddAt(v: seq<real>, j: nat, x: real)
    requires j < |v|
    ensures Sum(AddAt(v, j, x)) == Sum(v) + x
    decreases |v|
  {
    var n := |v| - 1;
    if j < n {
      assert AddAt(v, j, x)[..n] == AddAt(v[..n], j, x);
      SumAddAt(v[..n], j, x);
    } else {
      assert AddAt(v, j, x)[..n] == v[..n];
    }
  }

  lemma {:induction false} AccumulateSum(v: seq<real>, idx: seq<nat>, vals: seq<real>)
    requires |idx| == |vals| && IndicesBelow(idx, |v|)
    ensures Sum(Accumulate(v, idx, vals)) == Sum(v) + Sum(vals)
    decreases |idx|
  {
    if |idx| > 0 {
      var n := |idx| - 1;
      AccumulateSum(v, idx[..n], vals[..n]);
      SumAddAt(Accumulate(v, idx[..n], vals[..n]), idx[n], vals[n]);
    }
  }

  lemma {:induction false} AccumulateNonNeg(v: seq<real>, idx: seq<nat>, vals: seq<real>)
    requires |idx| == |vals| && IndicesBelow(idx, |v|)
    requires NonNeg(v) && NonNeg(vals)
    ensures NonNeg(Accumulate(v, idx, vals))
    decreases |idx|
  {
    if |idx| > 0 {
      var n := |idx| - 1;
      AccumulateNonNeg(v, idx[..n], vals[..n]);
    }
  }

  /** An entry that only ever receives zeros keeps its value. */
  lemma {:induction false} AccumulateUntouched(v: seq<real>, idx: seq<nat>, vals: seq<real>, j: nat)
    requires |idx| == |vals| && IndicesBelow(idx, |v|) && j < |v|
    requires forall k :: 0 <= k < |idx| && idx[k] == j ==> vals[k] == 0.0
    ensures Accumulate(v, idx, vals)[j] == v[j]
    decreases |idx|
  {
    if |idx| > 0 {
      var n := |idx| - 1;
      AccumulateUntouched(v, idx[..n], vals[..n], j);
    }
  }

  /** One more step of an accumulation over prefixes. */
  lemma AccumulateSnoc(v: seq<real>, idx: seq<nat>, vals: seq<real>, n: nat)
    requires |idx| == |vals| && IndicesBelow(idx, |v|) && n < |idx|
    ensures Accumulate(v, idx[..n + 1], vals[..n + 1]) == AddAt(Accumulate(v, idx[..n], vals[..n]), idx[n], vals[n])
  {
    assert idx[..n + 1][..n] == idx[..n] && vals[..n + 1][..n] == vals[..n];
  }

  /** Entry-wise sum of two vectors of the same length. */
  function Plus(a: seq<real>, b: seq<real>): (r: seq<real>)
    requires |a| == |b|
    ensures |r| == |a|
  {
    seq(|a|, i requires 0 <= i < |a| => a[i] + b[i])
  }

  lemma {:induction false} SumPlus(a: seq<real>, b: seq<real>)
    requires |a| == |b|
    ensures Sum(Plus(a, b)) == Sum(a) + Sum(b)
    decreases |a|
  {
    if |a| > 0 {
      var n := |a| - 1;
      assert Plus(a, b)[..n] == Plus(a[..n], b[..n]);
      SumPlus(a[..n], b[..n]);
    }
  }

  /** A vector of n copies of x. */
  function Constant(n: nat, x: real): (r: seq<real>)
    ensures |r| == n
  {
    seq(n, _ => x)
  }

  lemma {:induction false} SumConstant(n: nat, x: real)
    ensures Sum(Constant(n, x)) == n as real * x
  {
    if n > 0 {
      assert Constant(n, x)[..n - 1] == Constant(n - 1, x);
      SumConstant(n - 1, x);
    }
  }

  /** Sums over adjacent slices add up. */
  lemma SumSplit(v: seq<real>, a: nat, b: nat, c: nat)
    requires a <= b <= c <= |v|
    ensures Sum(v[a..c]) == Sum(v[a..b]) + Sum(v[b..c])
  {
    assert v[a..c] == v[a..b] + v[b..c];
    SumAppend(v[a..b], v[b..c]);
  }

  /** A vector that is entry-wise no larger has no larger sum. */
  lemma {:induction false} SumMonotone(a: seq<real>, b: seq<real>)
    requires |a| == |b|
    requires forall i :: 0 <= i < |a| ==> a[i] <= b[i]
    ensures Sum(a) <= Sum(b)
  {
    if |a| > 0 {
      SumMonotone(a[..|a| - 1], b[..|b| - 1]);
    }
  }
}
